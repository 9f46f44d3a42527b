/** `utils::string`: length-limited copies of a string and singular/plural
    unit names. Lengths and limits are in UTF-8 bytes, as Rust's `str`
    indexes them. */
module Strings {
  import opened Wrappers
  import opened Text
  import opened Config

  /** `s.get(..n)`: the prefix of `s` that is exactly `n` bytes long, which
      exists only when `n` is at most the byte length of `s` and falls on a
      character boundary. */
  function BytePrefix(s: string, n: nat): (r: Option<string>)
    ensures r.Some? ==> StartsWith(s, r.value) && ByteLen(r.value) == n
    ensures r.None? ==> forall k :: 0 <= k <= |s| ==> ByteLen(s[..k]) != n
    decreases |s|
  {
    if n == 0 then Some("")
    else if |s| == 0 then None
    else if Utf8Width(s[0]) > n then
      PrefixesAfterHead(s, n);
      None
    else match BytePrefix(s[1..], n - Utf8Width(s[0]))
      case Some(p) => Some([s[0]] + p)
      case None =>
        PrefixesAfterHead(s, n);
        None
  }

  /** Each non-empty prefix of `s` is its first character followed by a
      prefix of the rest; a helper for `BytePrefix`. */
  lemma PrefixesAfterHead(s: string, n: nat)
    requires |s| > 0
    ensures forall k :: 1 <= k <= |s| ==> ByteLen(s[..k]) == Utf8Width(s[0]) + ByteLen(s[1..][..k - 1])
  {
    forall k | 1 <= k <= |s|
      ensures ByteLen(s[..k]) == Utf8Width(s[0]) + ByteLen(s[1..][..k - 1])
    {
      assert s[..k][1..] == s[1..][..k - 1];
    }
  }

  /** A prefix of exactly `n` bytes is the one `s.get(..n)` returns: byte
      lengths of prefixes strictly grow, so there is at most one. */
  lemma {:induction false} BytePrefixAt(s: string, n: nat, j: nat)
    requires j <= |s| && ByteLen(s[..j]) == n
    ensures BytePrefix(s, n) == Some(s[..j])
    decreases |s|
  {
    if j > 0 {
      assert s[..j][1..] == s[1..][..j - 1];
      BytePrefixAt(s[1..], n - Utf8Width(s[0]), j - 1);
      assert [s[0]] + s[1..][..j - 1] == s[..j];
    }
  }

  /** On an ASCII string every index is a character boundary. */
  lemma {:induction false} BytePrefixAscii(s: string, n: nat)
    requires IsAscii(s) && n <= |s|
    ensures BytePrefix(s, n) == Some(s[..n])
    decreases |s|
  {
    if n > 0 {
      assert IsAscii(s[1..]) by {
        assert forall i :: 0 <= i < |s[1..]| ==> s[1..][i] == s[i + 1];
      }
      BytePrefixAscii(s[1..], n - 1);
      assert [s[0]] + s[1..][..n - 1] == s[..n];
    }
  }

  /** `n` past the end of an ASCII string is not inside it. */
  lemma BytePrefixAsciiBeyond(s: string, n: nat)
    requires IsAscii(s) && n > |s|
    ensures BytePrefix(s, n) == None
  {
    forall k | 0 <= k <= |s|
      ensures ByteLen(s[..k]) < n
    {
      assert IsAscii(s[..k]);
      AsciiByteLen(s[..k]);
    }
  }

  /** `strip_str(s, lim, add_ellipsis)` as written: with the ellipsis flag
      and a limit below 4 there is no result; otherwise the flag reserves 3
      bytes for "...", and when the remaining limit `k` is a character
      boundary of `s` the result is the first `k` bytes (plus "..." with the
      flag), else `s` itself. Nothing checks whether `s` already fits. */
  function StripStr(s: string, lim: nat, addEllipsis: bool): (r: Option<string>)
    ensures r.None? <==> addEllipsis && lim < 4
    ensures r.Some? && !addEllipsis ==>
      StartsWith(s, r.value) && (r.value == s || ByteLen(r.value) == lim)
    ensures r.Some? && addEllipsis ==>
      r.value == s ||
      (|r.value| >= 3 && r.value[|r.value| - 3..] == "..." &&
       StartsWith(s, r.value[..|r.value| - 3]) && ByteLen(r.value) == lim)
    ensures r.Some? && ByteLen(s) < (if addEllipsis then lim - 3 else lim) ==> r.value == s
    ensures r.Some? ==> forall j :: 0 <= j <= |s| && ByteLen(s[..j]) == (if addEllipsis then lim - 3 else lim) ==>
      r.value == s[..j] + (if addEllipsis then "..." else "")
    ensures r.Some? && (forall j :: 0 <= j <= |s| ==> ByteLen(s[..j]) != (if addEllipsis then lim - 3 else lim)) ==>
      r.value == s
  {
    if addEllipsis && lim < 4 then None
    else
      var k := if addEllipsis then lim - 3 else lim;
      match BytePrefix(s, k)
      case Some(p) =>
        assert s[..|p|] == p;
        forall j | 0 <= j <= |s| && ByteLen(s[..j]) == k
          ensures s[..j] == p
        {
          BytePrefixAt(s, k, j);
        }
        if addEllipsis then
          var out := p + "...";
          ByteLenConcat(p, "...");
          PrefixByteLen(s, p);
          assert out[..|out| - 3] == p;
          Some(out)
        else
          PrefixByteLen(s, p);
          Some(p)
      case None =>
        assert s[..|s|] == s;
        Some(s)
  }

  /** For ASCII text and the ellipsis flag with `lim >= 4` and `k = lim - 3`:
      a string of at least `k` characters becomes its first `k` characters
      and "...", exactly `lim` long; a shorter one comes back unchanged. */
  lemma StripStrAscii(s: string, lim: nat)
    requires IsAscii(s) && lim >= 4
    ensures lim - 3 <= |s| ==> StripStr(s, lim, true) == Some(s[..lim - 3] + "...")
    ensures lim - 3 <= |s| ==> |StripStr(s, lim, true).value| == lim
    ensures |s| < lim - 3 ==> StripStr(s, lim, true) == Some(s)
  {
    if lim - 3 <= |s| {
      BytePrefixAscii(s, lim - 3);
    } else {
      BytePrefixAsciiBeyond(s, lim - 3);
    }
  }

  /** Without the flag, ASCII text is cut to its first `lim` characters. */
  lemma StripStrAsciiPlain(s: string, lim: nat)
    requires IsAscii(s)
    ensures StripStr(s, lim, false) == Some(if lim <= |s| then s[..lim] else s)
  {
    if lim <= |s| {
      BytePrefixAscii(s, lim);
    } else {
      BytePrefixAsciiBeyond(s, lim);
    }
  }

  /** Truncation examples on ASCII text: a 20-character string with limit
      10 becomes 10 characters ending in "..."; a 5-character one comes back
      unchanged; with limit 3 there is no result. */
  lemma StripStrExamples(long: string, short: string)
    requires IsAscii(long) && |long| == 20
    requires IsAscii(short) && |short| == 5
    ensures StripStr(long, 10, true).Some?
    ensures |StripStr(long, 10, true).value| == 10
    ensures StripStr(long, 10, true).value[7..] == "..."
    ensures StripStr(short, 10, true) == Some(short)
    ensures StripStr(long, 3, true) == None
  {
    StripStrAscii(long, 10);
    StripStrAscii(short, 10);
  }

  /** As written, an 8-byte string is cut although the limit 10 would hold
      it, because only `lim - 3` is compared. */
  lemma StripStrCutsFittingText()
    ensures ByteLen("abcdefgh") <= 10
    ensures StripStr("abcdefgh", 10, true) == Some("abcdefg...")
  {
    var s := "abcdefgh";
    assert IsAscii(s);
    AsciiByteLen(s);
    var p := s[..7];
    assert p == "abcdefg" && IsAscii(p);
    AsciiByteLen(p);
    assert StripStr(s, 10, true).value == p + "...";
    assert p + "..." == "abcdefg...";
  }

  /** As written, when `lim - 3` falls inside a multi-byte character the
      whole string comes back, however long: four three-byte euro signs are
      12 bytes, and 7 is not a boundary, so a limit of 10 is exceeded. */
  lemma StripStrExceedsLimit()
    ensures ByteLen("€€€€") == 12
    ensures StripStr("€€€€", 10, true) == Some("€€€€")
  {
    var s := "€€€€";
    assert BytePrefix(s[3..], 0) == Some("");
    assert BytePrefix(s[2..], 1) == None;
    assert BytePrefix(s[1..], 4) == None;
    assert BytePrefix(s, 7) == None;
  }

  /** The longest prefix of `s` whose encoding fits in `n` bytes. */
  function FitPrefix(s: string, n: nat): (p: string)
    ensures StartsWith(s, p) && ByteLen(p) <= n
    ensures |p| < |s| ==> ByteLen(p) + Utf8Width(s[|p|]) > n
    decreases |s|
  {
    if |s| == 0 || Utf8Width(s[0]) > n then ""
    else
      var rest := FitPrefix(s[1..], n - Utf8Width(s[0]));
      assert ([s[0]] + rest)[1..] == rest;
      [s[0]] + rest
  }

  /** The truncation the error reply evidently intends: text that fits in
      `lim` bytes is kept whole; longer text is cut at the last character
      boundary that leaves room for "..." and gets the ellipsis. A limit
      below 4 still gives no result. */
  function Truncate(s: string, lim: nat): (r: Option<string>)
    ensures r.None? <==> lim < 4
    ensures r.Some? ==> ByteLen(r.value) <= lim
    ensures r.Some? ==> (r.value == s <==> ByteLen(s) <= lim)
    ensures r.Some? && r.value != s ==>
      |r.value| >= 3 && r.value[|r.value| - 3..] == "..." &&
      StartsWith(s, r.value[..|r.value| - 3]) && ByteLen(r.value) > lim - 4
  {
    if lim < 4 then None
    else if ByteLen(s) <= lim then Some(s)
    else
      var p := FitPrefix(s, lim - 3);
      var out := p + "...";
      ByteLenConcat(p, "...");
      assert out[..|out| - 3] == p;
      assert |p| < |s| by {
        if |p| == |s| {
          assert p == s;
        }
      }
      Some(out)
  }

  /** On ASCII text longer than the limit the intended truncation and the
      written one agree. */
  lemma TruncateAgreesWhenTooLong(s: string, lim: nat)
    requires IsAscii(s) && lim >= 4 && |s| > lim
    ensures Truncate(s, lim) == StripStr(s, lim, true)
  {
    AsciiByteLen(s);
    StripStrAscii(s, lim);
    var p := FitPrefix(s, lim - 3);
    assert IsAscii(p);
    AsciiByteLen(p);
    assert p == s[..lim - 3];
  }

  /** `singular_or_plural(s, n)`: the unit name, with a trailing "s" unless
      the count is exactly one. */
  function SingularOrPlural(word: string, n: int): (r: string)
    ensures StartsWith(r, word)
    ensures r == word <==> n == 1
    ensures n != 1 ==> r[|word|..] == "s"
  {
    if n == 1 then word else word + "s"
  }

  /** `singular_or_plural_u64`: the same choice for an unsigned count. */
  function SingularOrPluralU64(word: string, n: U64): (r: string)
    ensures StartsWith(r, word)
    ensures r == word <==> n == 1
    ensures n != 1 ==> r[|word|..] == "s"
  {
    if n == 1 then word else word + "s"
  }
}
