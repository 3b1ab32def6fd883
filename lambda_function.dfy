/**
 * The naming logic of the upload-triggered job submitter: the batch job name
 * derived from the uploaded object's key and a timestamp, and the input and
 * output object locations, where the output key is the input key with its
 * first `input/` turned into `output/`.
 */
module LambdaFunction {

  const JobNamePrefix := "video-enhance-"
  const MaxJobNameLength := 128

  /** Python's `s.split('/')[-1]`: the text after the last '/', or all of s. */
  function LastSegment(s: string): (r: string)
    ensures '/' !in r
    ensures |r| <= |s| && r == s[|s| - |r|..]
    ensures |r| < |s| ==> s[|s| - |r| - 1] == '/'
  {
    if s == [] || s[|s| - 1] == '/' then [] else LastSegment(s[..|s| - 1]) + [s[|s| - 1]]
  }

  /** Python's `s.rfind(c)`: the position of the last c in s, or -1. */
  function LastIndex(s: string, c: char): (r: int)
    ensures -1 <= r < |s|
    ensures r >= 0 ==> s[r] == c
    ensures forall k :: r < k < |s| ==> s[k] != c
  {
    if s == [] then -1
    else if s[|s| - 1] == c then |s| - 1
    else LastIndex(s[..|s| - 1], c)
  }

  /** Python's `s.rsplit('.', 1)[0]`: s without its last '.' and what follows it. */
  function DropExtension(s: string): (r: string)
    ensures '.' !in s ==> r == s
    ensures '.' in s ==> |r| < |s| && r == s[..|r|] && s[|r|] == '.' && '.' !in s[|r| + 1..]
  {
    var k := LastIndex(s, '.');
    if k < 0 then s else s[..k]
  }

  /** The file-name part of an object key: its last segment without the extension. */
  function BaseName(key: string): string
  {
    DropExtension(LastSegment(key))
  }

  /** A letter or digit in ASCII; Python's `isalnum` accepts at least these. */
  predicate IsAsciiAlnum(c: char)
  {
    'a' <= c <= 'z' || 'A' <= c <= 'Z' || '0' <= c <= '9'
  }

  /** A character a job name may hold, for a given `isalnum` test. */
  predicate IsJobNameChar(c: char, isAlnum: char -> bool)
  {
    isAlnum(c) || c == '-' || c == '_'
  }

  /** Python's `s[:n]`. */
  function Truncate(s: string, n: nat): (r: string)
    ensures |r| <= n && |r| <= |s| && r == s[..|r|]
    ensures |s| <= n ==> r == s
    ensures n < |s| ==> |r| == n
  {
    if |s| <= n then s else s[..n]
  }

  /** Every character that may not appear in a job name becomes '-'. */
  function Sanitize(s: string, isAlnum: char -> bool): (r: string)
    ensures |r| == |s|
    ensures forall k :: 0 <= k < |s| && IsJobNameChar(s[k], isAlnum) ==> r[k] == s[k]
    ensures forall k :: 0 <= k < |s| && !IsJobNameChar(s[k], isAlnum) ==> r[k] == '-'
    ensures forall k :: 0 <= k < |r| ==> IsJobNameChar(r[k], isAlnum)
  {
    if s == [] then []
    else [if IsJobNameChar(s[0], isAlnum) then s[0] else '-'] + Sanitize(s[1..], isAlnum)
  }

  /** A string of allowed characters is left alone. */
  lemma SanitizeKeepsValid(s: string, isAlnum: char -> bool)
    requires forall k :: 0 <= k < |s| ==> IsJobNameChar(s[k], isAlnum)
    ensures Sanitize(s, isAlnum) == s
  {
  }

  /** Sanitizing twice is sanitizing once. */
  lemma SanitizeIdempotent(s: string, isAlnum: char -> bool)
    ensures Sanitize(Sanitize(s, isAlnum), isAlnum) == Sanitize(s, isAlnum)
  {
    SanitizeKeepsValid(Sanitize(s, isAlnum), isAlnum);
  }

  /**
   * generate_job_name, with the formatted clock reading passed in: prefix,
   * base name, '-', timestamp, cut to 128 characters, then sanitized; isAlnum
   * is Python's `str.isalnum`.
   */
  function GenerateJobName(key: string, timestamp: string, isAlnum: char -> bool): (r: string)
    ensures |r| <= MaxJobNameLength
    ensures forall k :: 0 <= k < |r| ==> IsJobNameChar(r[k], isAlnum)
    ensures |r| == if |BaseName(key)| + |timestamp| + 15 <= MaxJobNameLength
                   then |BaseName(key)| + |timestamp| + 15 else MaxJobNameLength
  {
    Sanitize(Truncate(JobNamePrefix + BaseName(key) + "-" + timestamp, MaxJobNameLength), isAlnum)
  }

  /** A leading run of allowed characters survives sanitizing. */
  lemma SanitizeKeepsPrefix(s: string, p: string, isAlnum: char -> bool)
    requires |p| <= |s| && s[..|p|] == p
    requires AllJobNameChars(p, isAlnum)
    ensures Sanitize(s, isAlnum)[..|p|] == p
  {
    var r := Sanitize(s, isAlnum);
    forall k | 0 <= k < |p|
      ensures r[k] == p[k]
    {
      assert s[k] == p[k];
    }
  }

  lemma ConcatRegroup(a: string, b: string, c: string, d: string)
    ensures a + b + c + d == a + (b + c + d)
  {
  }

  /** Whatever follows the prefix, the prefix comes through cutting and sanitizing unchanged. */
  lemma PrefixSurvives(rest: string, isAlnum: char -> bool)
    requires forall c :: IsAsciiAlnum(c) ==> isAlnum(c)
    ensures var r := Sanitize(Truncate(JobNamePrefix + rest, MaxJobNameLength), isAlnum);
      |r| >= |JobNamePrefix| && r[..|JobNamePrefix|] == JobNamePrefix
  {
    var raw := JobNamePrefix + rest;
    var cut := Truncate(raw, MaxJobNameLength);
    assert cut[..|JobNamePrefix|] == raw[..|JobNamePrefix|] == JobNamePrefix;
    PrefixIsValid(isAlnum);
    SanitizeKeepsPrefix(cut, JobNamePrefix, isAlnum);
  }

  /** Every job name starts with "video-enhance-". */
  lemma JobNameHasPrefix(key: string, timestamp: string, isAlnum: char -> bool)
    requires forall c :: IsAsciiAlnum(c) ==> isAlnum(c)
    ensures |GenerateJobName(key, timestamp, isAlnum)| >= |JobNamePrefix|
    ensures GenerateJobName(key, timestamp, isAlnum)[..|JobNamePrefix|] == JobNamePrefix
  {
    ConcatRegroup(JobNamePrefix, BaseName(key), "-", timestamp);
    PrefixSurvives(BaseName(key) + "-" + timestamp, isAlnum);
  }

  /** Every character of s may appear in a job name. */
  predicate AllJobNameChars(s: string, isAlnum: char -> bool)
  {
    forall k :: 0 <= k < |s| ==> IsJobNameChar(s[k], isAlnum)
  }

  lemma AllJobNameCharsConcat(a: string, b: string, isAlnum: char -> bool)
    requires AllJobNameChars(a, isAlnum) && AllJobNameChars(b, isAlnum)
    ensures AllJobNameChars(a + b, isAlnum)
  {
    forall k | 0 <= k < |a + b|
      ensures IsJobNameChar((a + b)[k], isAlnum)
    {
      if k >= |a| {
        assert (a + b)[k] == b[k - |a|];
      }
    }
  }

  /** The prefix is made of letters and '-' only. */
  lemma PrefixIsValid(isAlnum: char -> bool)
    requires forall c :: IsAsciiAlnum(c) ==> isAlnum(c)
    ensures AllJobNameChars(JobNamePrefix, isAlnum)
  {
    forall k | 0 <= k < |JobNamePrefix|
      ensures IsJobNameChar(JobNamePrefix[k], isAlnum)
    {
      assert JobNamePrefix[k] == '-' || IsAsciiAlnum(JobNamePrefix[k]);
    }
  }

  /**
   * When the base name and timestamp hold only allowed characters and the
   * whole fits in 128 characters, the job name is exactly
   * "video-enhance-" + base name + "-" + timestamp.
   */
  lemma JobNameExact(key: string, timestamp: string, isAlnum: char -> bool)
    requires forall c :: IsAsciiAlnum(c) ==> isAlnum(c)
    requires AllJobNameChars(BaseName(key), isAlnum) && AllJobNameChars(timestamp, isAlnum)
    requires |BaseName(key)| + |timestamp| + 15 <= MaxJobNameLength
    ensures GenerateJobName(key, timestamp, isAlnum) == JobNamePrefix + BaseName(key) + "-" + timestamp
  {
    var base := BaseName(key);
    PrefixIsValid(isAlnum);
    assert AllJobNameChars("-", isAlnum);
    AllJobNameCharsConcat(JobNamePrefix, base, isAlnum);
    AllJobNameCharsConcat(JobNamePrefix + base, "-", isAlnum);
    AllJobNameCharsConcat(JobNamePrefix + base + "-", timestamp, isAlnum);
    var raw := JobNamePrefix + base + "-" + timestamp;
    assert Truncate(raw, MaxJobNameLength) == raw;
    SanitizeKeepsValid(raw, isAlnum);
  }

  /** `pat` occurs in s at position i. */
  predicate OccursAt(s: string, pat: string, i: nat)
  {
    i + |pat| <= |s| && s[i..i + |pat|] == pat
  }

  /** i is where `pat` first occurs in s. */
  predicate FirstOccurrence(s: string, pat: string, i: nat)
  {
    OccursAt(s, pat, i) && forall j :: 0 <= j < i ==> !OccursAt(s, pat, j)
  }

  /** Python's `s.find(pat, start)`: the first position from start on where pat occurs, or -1. */
  function FindFrom(s: string, pat: string, start: nat): (r: int)
    ensures r == -1 || (start <= r && OccursAt(s, pat, r))
    ensures forall j :: start <= j && (r == -1 || j < r) ==> !OccursAt(s, pat, j)
    decreases |s| - start
  {
    if start + |pat| > |s| then -1
    else if s[start..start + |pat|] == pat then start
    else FindFrom(s, pat, start + 1)
  }

  /** Python's `s.replace(pat, rep, 1)`: only the first occurrence is replaced. */
  function ReplaceFirst(s: string, pat: string, rep: string): (r: string)
    ensures (forall j :: !OccursAt(s, pat, j)) ==> r == s
    ensures forall i: nat :: FirstOccurrence(s, pat, i) ==> r == s[..i] + rep + s[i + |pat|..]
  {
    var i := FindFrom(s, pat, 0);
    if i < 0 then s else s[..i] + rep + s[i + |pat|..]
  }

  /** The URI of an object. */
  function S3Uri(bucket: string, key: string): string
  {
    "s3://" + bucket + "/" + key
  }

  /**
   * create_s3_paths: the uploaded object's URI, and the URI of the same key
   * with its first `input/` turned into `output/`.
   */
  function CreateS3Paths(bucket: string, key: string): (paths: (string, string))
    ensures paths.0 == "s3://" + bucket + "/" + key
    ensures forall i: nat :: FirstOccurrence(key, "input/", i) ==>
      paths.1 == "s3://" + bucket + "/" + key[..i] + "output/" + key[i + 6..]
    ensures (forall j :: !OccursAt(key, "input/", j)) ==> paths.1 == paths.0
  {
    (S3Uri(bucket, key), S3Uri(bucket, ReplaceFirst(key, "input/", "output/")))
  }

  /** An object uploaded under the `input/` prefix gets its output under `output/`. */
  lemma OutputUnderOutputPrefix(bucket: string, rest: string)
    ensures CreateS3Paths(bucket, "input/" + rest).1 == "s3://" + bucket + "/output/" + rest
  {
    var key := "input/" + rest;
    assert OccursAt(key, "input/", 0);
    assert FirstOccurrence(key, "input/", 0);
    assert key[6..] == rest;
  }
}
