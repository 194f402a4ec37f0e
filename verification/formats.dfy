/** Validation of the requested sequence-export format
    (`validate_sequence_format`): lower-case the option, drop every leading
    '.', and keep it only if it names a supported container. */
module Formats {
  import opened Options

  const Gif: string := "gif"
  const Mp4: string := "mp4"

  /** The containers the exporter can write, in the order `SUPPORTED_FORMATS` lists them. */
  const SupportedFormats: seq<string> := [Gif, Mp4]

  predicate IsUpper(c: char) {
    'A' <= c <= 'Z'
  }

  /** ASCII lower-casing of one character; every other character is kept. */
  function LowerChar(c: char): (r: char)
    ensures !IsUpper(r)
    ensures IsUpper(c) ==> r as int == c as int + 32
    ensures !IsUpper(c) ==> r == c
  {
    if IsUpper(c) then (c as int + 32) as char else c
  }

  /** Python's `str.lower()` on the ASCII range. */
  function Lower(s: string): (r: string)
    ensures |r| == |s|
    ensures forall i :: 0 <= i < |r| ==> !IsUpper(r[i])
    ensures forall i :: 0 <= i < |s| && !IsUpper(s[i]) ==> r[i] == s[i]
    ensures forall i :: 0 <= i < |s| && IsUpper(s[i]) ==> r[i] as int == s[i] as int + 32
  {
    seq(|s|, i requires 0 <= i < |s| => LowerChar(s[i]))
  }

  /** The first `k` characters of `s` are all dots. */
  predicate DotPrefix(s: string, k: int) {
    0 <= k <= |s| && forall i :: 0 <= i < k ==> s[i] == '.'
  }

  /** Python's `str.lstrip(".")`: the longest suffix of `s` that does not
      start with '.', everything before it being dots. */
  function StripLeadingDots(s: string): (r: string)
    ensures |r| <= |s|
    ensures r == s[|s| - |r|..]
    ensures DotPrefix(s, |s| - |r|)
    ensures |r| == 0 || r[0] != '.'
  {
    if |s| > 0 && s[0] == '.' then StripLeadingDots(s[1..]) else s
  }

  /** `validate_sequence_format`: `None` stays `None`; otherwise the
      normalised name if it is supported, and `None` (after a warning) if not. */
  function ValidateSequenceFormat(fmt: Option<string>): (r: Option<string>)
    ensures fmt.None? ==> r.None?
    ensures r.Some? ==> r.value in SupportedFormats
  {
    match fmt
    case None => None
    case Some(s) =>
      var normalised := StripLeadingDots(Lower(s));
      if normalised in SupportedFormats then Some(normalised) else None
  }

  /** Reference reading of the normalisation: `s` is some dots followed by a
      word whose lower-case form is `f`. */
  ghost predicate DotsThenWord(s: string, f: string) {
    exists k :: DotPrefix(s, k) && Lower(s[k..]) == f
  }

  /** A string made of a dot prefix `s[..k]` followed by something that does
      not start with a dot loses exactly that prefix. */
  lemma {:induction false} StripExactPrefix(s: string, k: nat)
    requires DotPrefix(s, k)
    requires k == |s| || s[k] != '.'
    ensures StripLeadingDots(s) == s[k..]
  {
    if k > 0 {
      StripExactPrefix(s[1..], k - 1);
      assert s[1..][k - 1..] == s[k..];
    }
  }

  /** Lower-casing and dot stripping commute, since lower-casing maps '.'
      and only '.' to '.'. */
  lemma LowerThenStrip(s: string)
    ensures StripLeadingDots(Lower(s)) == Lower(StripLeadingDots(s))
  {
    var t := StripLeadingDots(s);
    var k := |s| - |t|;
    var l := Lower(s);
    LowerKeepsDotPrefix(s, k);
    assert k == |l| || l[k] != '.' by {
      if k < |s| {
        assert t[0] == s[k];
        assert l[k] == LowerChar(s[k]);
      }
    }
    StripExactPrefix(l, k);
    LowerSuffix(s, k);
  }

  /** Lower-casing keeps a dot prefix. */
  lemma LowerKeepsDotPrefix(s: string, k: int)
    requires DotPrefix(s, k)
    ensures DotPrefix(Lower(s), k)
  {
    var l := Lower(s);
    forall i | 0 <= i < k
      ensures l[i] == '.'
    {
      assert s[i] == '.';
    }
  }

  /** Lower-casing works character by character, so it commutes with taking a suffix. */
  lemma LowerSuffix(s: string, k: nat)
    requires k <= |s|
    ensures Lower(s)[k..] == Lower(s[k..])
  {
    var l := Lower(s);
    var u := Lower(s[k..]);
    forall i | 0 <= i < |s| - k
      ensures l[k..][i] == u[i]
    {
      assert s[k..][i] == s[k + i];
    }
  }

  /** Dots followed by a supported name in any letter case validate to that name. */
  lemma DotsThenWordIsValidated(s: string, f: string)
    requires f in SupportedFormats && DotsThenWord(s, f)
    ensures ValidateSequenceFormat(Some(s)) == Some(f)
  {
    var j :| DotPrefix(s, j) && Lower(s[j..]) == f;
    assert |f| == 3;
    assert s[j] != '.' by {
      assert Lower(s[j..])[0] == LowerChar(s[j]);
    }
    StripExactPrefix(s, j);
    LowerThenStrip(s);
  }

  /** A supported name is the result of validating exactly the strings that
      are some dots followed by that name in any letter case. */
  lemma ValidateSequenceFormatSpec(s: string, f: string)
    ensures ValidateSequenceFormat(Some(s)) == Some(f) <==> f in SupportedFormats && DotsThenWord(s, f)
  {
    if ValidateSequenceFormat(Some(s)) == Some(f) {
      var t := StripLeadingDots(s);
      var k := |s| - |t|;
      LowerThenStrip(s);
      assert s[k..] == t;
      assert DotPrefix(s, k) && Lower(s[k..]) == f;
    }
    if f in SupportedFormats && DotsThenWord(s, f) {
      DotsThenWordIsValidated(s, f);
    }
  }

  /** Validating an already validated format changes nothing. */
  lemma ValidateSequenceFormatIdempotent(fmt: Option<string>)
    ensures ValidateSequenceFormat(ValidateSequenceFormat(fmt)) == ValidateSequenceFormat(fmt)
  {
    var r := ValidateSequenceFormat(fmt);
    if r.Some? {
      var f := r.value;
      assert Lower(f) == f;
      StripExactPrefix(f, 0);
      assert f[0..] == f;
    }
  }
}
