/** Text operations the bot relies on from Rust's `str` and `[T]::join`:
    joining, prefix and substring tests, splitting on one character,
    ASCII lower-casing, decimal rendering and UTF-8 byte widths. */
module Text {

  /** `parts.join(sep)`: the parts with `sep` between neighbours. */
  function Join(parts: seq<string>, sep: string): string
    decreases |parts|
  {
    if |parts| == 0 then ""
    else if |parts| == 1 then parts[0]
    else parts[0] + sep + Join(parts[1..], sep)
  }

  /** `s.starts_with(prefix)`. */
  predicate StartsWith(s: string, prefix: string) {
    |prefix| <= |s| && s[..|prefix|] == prefix
  }

  /** `s.contains(pattern)`: `pattern` occurs somewhere in `s`. */
  predicate Contains(s: string, pattern: string)
    decreases |s|
  {
    StartsWith(s, pattern) || (|s| > 0 && Contains(s[1..], pattern))
  }

  /** Number of occurrences of `c` in `s`. */
  function Count(s: string, c: char): nat
    decreases |s|
  {
    if |s| == 0 then 0 else (if s[0] == c then 1 else 0) + Count(s[1..], c)
  }

  lemma {:induction false} CountConcat(a: string, b: string, c: char)
    ensures Count(a + b, c) == Count(a, c) + Count(b, c)
    decreases |a|
  {
    if |a| == 0 {
      assert a + b == b;
    } else {
      assert (a + b)[1..] == a[1..] + b;
      CountConcat(a[1..], b, c);
    }
  }

  lemma {:induction false} CountAbsent(s: string, c: char)
    requires c !in s
    ensures Count(s, c) == 0
    decreases |s|
  {
    if |s| > 0 {
      assert s[0] != c;
      assert forall i :: 0 <= i < |s[1..]| ==> s[1..][i] == s[i + 1];
      CountAbsent(s[1..], c);
    }
  }

  /** An occurrence at the front or inside survives appending. */
  lemma {:induction false} ContainsAppend(a: string, b: string, pattern: string)
    requires Contains(a, pattern)
    ensures Contains(a + b, pattern)
    decreases |a|
  {
    if StartsWith(a, pattern) {
      assert (a + b)[..|pattern|] == a[..|pattern|];
    } else {
      assert (a + b)[1..] == a[1..] + b;
      ContainsAppend(a[1..], b, pattern);
    }
  }

  /** `x + pattern + y` contains `pattern`. */
  lemma {:induction false} ContainsInfix(x: string, pattern: string, y: string)
    ensures Contains(x + pattern + y, pattern)
    decreases |x|
  {
    if |x| == 0 {
      assert x + pattern + y == pattern + y;
      assert (pattern + y)[..|pattern|] == pattern;
    } else {
      assert (x + pattern + y)[1..] == x[1..] + pattern + y;
      ContainsInfix(x[1..], pattern, y);
    }
  }

  /** A string without the pattern's first character cannot contain it. */
  lemma {:induction false} NotContainsWithoutHead(s: string, pattern: string)
    requires |pattern| > 0 && pattern[0] !in s
    ensures !Contains(s, pattern)
    decreases |s|
  {
    if |s| > 0 {
      assert s[0] != pattern[0];
      assert forall i :: 0 <= i < |s[1..]| ==> s[1..][i] == s[i + 1];
      NotContainsWithoutHead(s[1..], pattern);
    }
  }

  /** Joins of two and three parts. */
  lemma Join2(x: string, y: string, sep: string)
    ensures Join([x, y], sep) == x + sep + y
  {
    assert [x, y][1..] == [y];
  }

  lemma Join3(x: string, y: string, z: string, sep: string)
    ensures Join([x, y, z], sep) == x + sep + y + sep + z
  {
    assert [x, y, z][1..] == [y, z];
    Join2(y, z, sep);
    assert x + sep + (y + sep + z) == x + sep + y + sep + z;
  }

  /** `s.split(sep)`: the maximal runs between occurrences of `sep`. Like
      Rust's `split`, it yields at least one token and keeps empty tokens. */
  function Split(s: string, sep: char): (tokens: seq<string>)
    ensures |tokens| >= 1
    ensures forall i :: 0 <= i < |tokens| ==> sep !in tokens[i]
    decreases |s|
  {
    if |s| == 0 then [""]
    else
      var rest := Split(s[1..], sep);
      if s[0] == sep then [""] + rest
      else [[s[0]] + rest[0]] + rest[1..]
  }

  lemma JoinCons(t: string, ts: seq<string>, sep: string)
    requires |ts| >= 1
    ensures Join([t] + ts, sep) == t + sep + Join(ts, sep)
  {
    assert ([t] + ts)[1..] == ts;
  }

  /** Rejoining the tokens of a split with the separator gives back the text. */
  lemma {:induction false} JoinSplit(s: string, sep: char)
    ensures Join(Split(s, sep), [sep]) == s
    decreases |s|
  {
    if |s| > 0 {
      var rest := Split(s[1..], sep);
      JoinSplit(s[1..], sep);
      if s[0] == sep {
        JoinCons("", rest, [sep]);
        assert s == [sep] + s[1..];
      } else {
        var head := [s[0]] + rest[0];
        if |rest| == 1 {
          assert Split(s, sep) == [head];
          assert s == [s[0]] + s[1..];
        } else {
          JoinCons(head, rest[1..], [sep]);
          JoinCons(rest[0], rest[1..], [sep]);
          assert [rest[0]] + rest[1..] == rest;
          assert s == [s[0]] + s[1..];
        }
      }
    }
  }

  /** Splitting a token free of `sep` followed by more text glues the token
      onto the first token of the rest. */
  lemma {:induction false} SplitGlued(t: string, u: string, sep: char)
    requires sep !in t
    ensures Split(t + u, sep) == [t + Split(u, sep)[0]] + Split(u, sep)[1..]
    decreases |t|
  {
    if |t| == 0 {
      assert t + u == u;
      assert t + Split(u, sep)[0] == Split(u, sep)[0];
      assert [Split(u, sep)[0]] + Split(u, sep)[1..] == Split(u, sep);
    } else {
      assert t[0] != sep;
      assert (t + u)[1..] == t[1..] + u;
      assert sep !in t[1..] by {
        assert forall i :: 0 <= i < |t[1..]| ==> t[1..][i] == t[i + 1];
      }
      SplitGlued(t[1..], u, sep);
      assert [t[0]] + (t[1..] + Split(u, sep)[0]) == t + Split(u, sep)[0];
    }
  }

  /** Splitting the join of separator-free tokens gives back the tokens. */
  lemma {:induction false} SplitJoin(tokens: seq<string>, sep: char)
    requires |tokens| >= 1
    requires forall i :: 0 <= i < |tokens| ==> sep !in tokens[i]
    ensures Split(Join(tokens, [sep]), sep) == tokens
    decreases |tokens|
  {
    if |tokens| == 1 {
      SplitGlued(tokens[0], "", sep);
      assert tokens[0] + "" == tokens[0];
    } else {
      var rest := tokens[1..];
      assert [tokens[0]] + rest == tokens;
      JoinCons(tokens[0], rest, [sep]);
      SplitJoin(rest, sep);
      var u := [sep] + Join(rest, [sep]);
      assert Join(tokens, [sep]) == tokens[0] + u;
      SplitGlued(tokens[0], u, sep);
      assert u[1..] == Join(rest, [sep]);
      assert Split(u, sep) == [""] + rest;
      assert tokens[0] + "" == tokens[0];
    }
  }

  /** ASCII lower-casing of one character. */
  function LowerChar(c: char): char {
    if 'A' <= c <= 'Z' then (c as int + 32) as char else c
  }

  predicate IsLower(s: string) {
    forall i :: 0 <= i < |s| ==> !('A' <= s[i] <= 'Z')
  }

  /** ASCII `to_lowercase`: upper-case letters become lower case, every
      other character is kept. */
  function Lower(s: string): (r: string)
    ensures |r| == |s| && IsLower(r)
    ensures forall i :: 0 <= i < |s| && !('A' <= s[i] <= 'Z') ==> r[i] == s[i]
    ensures forall i :: 0 <= i < |s| && 'A' <= s[i] <= 'Z' ==> r[i] as int == s[i] as int + 32
  {
    seq(|s|, i requires 0 <= i < |s| => LowerChar(s[i]))
  }

  /** Lower-casing leaves a lower-case string alone, so it is idempotent. */
  lemma LowerFixesLower(s: string)
    requires IsLower(s)
    ensures Lower(s) == s
  {
  }

  lemma LowerIdempotent(s: string)
    ensures Lower(Lower(s)) == Lower(s)
  {
    LowerFixesLower(Lower(s));
  }

  /** Lower-casing distributes over concatenation. */
  lemma LowerConcat(a: string, b: string)
    ensures Lower(a + b) == Lower(a) + Lower(b)
  {
  }

  function DigitChar(d: nat): char
    requires d < 10
  {
    "0123456789"[d]
  }

  predicate IsDigit(c: char) {
    '0' <= c <= '9'
  }

  /** `format!("{}", n)` for a non-negative integer: its decimal digits,
      without leading zeros. */
  function Decimal(n: nat): (r: string)
    ensures |r| >= 1
    ensures forall i :: 0 <= i < |r| ==> IsDigit(r[i])
    ensures n > 0 ==> r[0] != '0'
    decreases n
  {
    if n < 10 then [DigitChar(n)] else Decimal(n / 10) + [DigitChar(n % 10)]
  }

  /** The value a string of decimal digits denotes. */
  function DigitsValue(s: string): nat
    requires forall i :: 0 <= i < |s| ==> IsDigit(s[i])
    decreases |s|
  {
    if |s| == 0 then 0
    else
      assert IsDigit(s[|s| - 1]);
      10 * DigitsValue(s[..|s| - 1]) + (s[|s| - 1] as int - '0' as int)
  }

  /** Reading the rendered digits back gives the number. */
  lemma {:induction false} DecimalValue(n: nat)
    ensures DigitsValue(Decimal(n)) == n
    decreases n
  {
    if n >= 10 {
      var r := Decimal(n);
      assert r[..|r| - 1] == Decimal(n / 10);
      DecimalValue(n / 10);
    }
  }

  /** Number of bytes of the UTF-8 encoding of `c`. */
  function Utf8Width(c: char): nat {
    if c as int < 0x80 then 1
    else if c as int < 0x800 then 2
    else if c as int < 0x1_0000 then 3
    else 4
  }

  /** `s.len()`: the length of the UTF-8 encoding of `s` in bytes. */
  function ByteLen(s: string): nat
    decreases |s|
  {
    if |s| == 0 then 0 else Utf8Width(s[0]) + ByteLen(s[1..])
  }

  lemma {:induction false} ByteLenConcat(a: string, b: string)
    ensures ByteLen(a + b) == ByteLen(a) + ByteLen(b)
    decreases |a|
  {
    if |a| == 0 {
      assert a + b == b;
    } else {
      assert (a + b)[1..] == a[1..] + b;
      ByteLenConcat(a[1..], b);
    }
  }

  /** A prefix never has more bytes than the whole string. */
  lemma PrefixByteLen(s: string, p: string)
    requires StartsWith(s, p)
    ensures ByteLen(p) <= ByteLen(s)
  {
    assert s == p + s[|p|..];
    ByteLenConcat(p, s[|p|..]);
  }

  predicate IsAscii(s: string) {
    forall i :: 0 <= i < |s| ==> s[i] as int < 0x80
  }

  /** An ASCII string has one byte per character. */
  lemma {:induction false} AsciiByteLen(s: string)
    requires IsAscii(s)
    ensures ByteLen(s) == |s|
    decreases |s|
  {
    if |s| > 0 {
      assert forall i :: 0 <= i < |s[1..]| ==> s[1..][i] == s[i + 1];
      AsciiByteLen(s[1..]);
    }
  }
}
