/** `utils::time::as_text`: a number of milliseconds as a duration phrase
    such as "1 day, 1 hour, 1 minute, and 1 second". */
module Duration {
  import opened Text
  import opened Strings

  /** The `i64` argument of `as_text`. */
  type I64 = x: int | -0x8000_0000_0000_0000 <= x < 0x8000_0000_0000_0000

  /** Rust's `/` on integers, which truncates toward zero. */
  function Quot(a: int, b: int): int
    requires b > 0
  {
    if a >= 0 then a / b else -((-a) / b)
  }

  /** Rust's `%` on integers, whose sign follows the dividend. */
  function Rem(a: int, b: int): int
    requires b > 0
  {
    a - b * Quot(a, b)
  }

  /** Whole days, and hours, minutes and seconds within the next unit up. */
  datatype Parts = Parts(days: int, hours: int, minutes: int, seconds: int)

  predicate NonNegative(p: Parts) {
    p.days >= 0 && p.hours >= 0 && p.minutes >= 0 && p.seconds >= 0
  }

  /** The components `as_text` reads from `chrono::Duration`: whole seconds
      truncated toward zero, then `num_days()`, `num_hours() % 24`,
      `num_minutes() % 60` and `num_seconds() % 60`. */
  function Decompose(millis: I64): (p: Parts)
    ensures millis >= 0 ==>
      p == Parts(millis / 86_400_000, millis / 3_600_000 % 24, millis / 60_000 % 60, millis / 1000 % 60)
    ensures millis >= 0 ==> NonNegative(p) && p.hours < 24 && p.minutes < 60 && p.seconds < 60
    ensures millis < 0 ==> p.days <= 0 && p.hours <= 0 && p.minutes <= 0 && p.seconds <= 0
  {
    var secs := Quot(millis, 1000);
    DecomposeFacts(millis);
    Parts(Quot(secs, 86_400), Rem(Quot(secs, 3_600), 24), Rem(Quot(secs, 60), 60), Rem(secs, 60))
  }

  lemma DecomposeFacts(millis: int)
    ensures var secs := Quot(millis, 1000);
      millis >= 0 ==>
        Quot(secs, 86_400) == millis / 86_400_000 &&
        Rem(Quot(secs, 3_600), 24) == millis / 3_600_000 % 24 &&
        Rem(Quot(secs, 60), 60) == millis / 60_000 % 60 &&
        Rem(secs, 60) == millis / 1000 % 60
    ensures var secs := Quot(millis, 1000);
      millis < 0 ==>
        Quot(secs, 86_400) <= 0 && Rem(Quot(secs, 3_600), 24) <= 0 &&
        Rem(Quot(secs, 60), 60) <= 0 && Rem(secs, 60) <= 0
  {
    var secs := Quot(millis, 1000);
    if millis >= 0 {
      assert millis / 1000 / 86_400 == millis / 86_400_000;
      assert millis / 1000 / 3_600 == millis / 3_600_000;
      assert millis / 1000 / 60 == millis / 60_000;
      RemIsMod(secs / 3_600, 24);
      RemIsMod(secs / 60, 60);
      RemIsMod(secs, 60);
    } else {
      RemNonPositive(Quot(secs, 3_600), 24);
      RemNonPositive(Quot(secs, 60), 60);
      RemNonPositive(secs, 60);
    }
  }

  lemma RemIsMod(a: nat, b: int)
    requires b > 0
    ensures Rem(a, b) == a % b
  {
  }

  lemma RemNonPositive(a: int, b: int)
    requires b > 0 && a <= 0
    ensures Quot(a, b) <= 0 && Rem(a, b) <= 0
  {
    var q := (-a) / b;
    assert -a == b * q + (-a) % b;
  }

  /** The components account for every whole second of a non-negative
      duration: recombined with the leftover milliseconds they give it back. */
  lemma Recompose(millis: I64)
    requires millis >= 0
    ensures var p := Decompose(millis);
      p.days * 86_400_000 + p.hours * 3_600_000 + p.minutes * 60_000 + p.seconds * 1000
        + millis % 1000 == millis
  {
    var secs := millis / 1000;
    var p := Decompose(millis);
    assert p.days == secs / 86_400 && p.hours == secs / 3_600 % 24;
    assert p.minutes == secs / 60 % 60 && p.seconds == secs % 60;
    assert secs / 60 / 60 == secs / 3_600;
    assert secs / 3_600 / 24 == secs / 86_400;
    assert millis == 1000 * secs + millis % 1000;
    assert secs == 60 * (secs / 60) + secs % 60;
    assert secs / 60 == 60 * (secs / 3_600) + secs / 60 % 60;
    assert secs / 3_600 == 24 * (secs / 86_400) + secs / 3_600 % 24;
  }

  /** The converse of `Recompose`: components within their ranges, put
      together with fewer than 1000 leftover milliseconds, come back apart
      unchanged. */
  lemma DecomposeRecompose(d: nat, h: nat, m: nat, s: nat, ms: nat)
    requires h < 24 && m < 60 && s < 60 && ms < 1000
    requires d * 86_400_000 + h * 3_600_000 + m * 60_000 + s * 1000 + ms < 0x8000_0000_0000_0000
    ensures Decompose(d * 86_400_000 + h * 3_600_000 + m * 60_000 + s * 1000 + ms) == Parts(d, h, m, s)
  {
    var t := d * 86_400_000 + h * 3_600_000 + m * 60_000 + s * 1000 + ms;
    var hs, ms60 := d * 24 + h, d * 1440 + h * 60 + m;
    var secs := ms60 * 60 + s;
    DivUnique(t, 86_400_000, d, h * 3_600_000 + m * 60_000 + s * 1000 + ms);
    DivUnique(t, 3_600_000, hs, m * 60_000 + s * 1000 + ms);
    DivUnique(hs, 24, d, h);
    DivUnique(t, 60_000, ms60, s * 1000 + ms);
    DivUnique(ms60, 60, hs, m);
    DivUnique(t, 1000, secs, ms);
    DivUnique(secs, 60, ms60, s);
  }

  /** Division with a remainder in range is determined by it. */
  lemma DivUnique(a: int, b: int, q: int, r: int)
    requires b > 0 && 0 <= r < b && a == b * q + r
    ensures a / b == q && a % b == r
  {
    var q0, r0 := a / b, a % b;
    assert a == b * q0 + r0 && 0 <= r0 < b;
    if q0 < q {
      MulStep(b, q0, q);
      assert false;
    } else if q < q0 {
      MulStep(b, q, q0);
      assert false;
    }
  }

  lemma MulStep(b: int, x: int, y: int)
    requires b > 0 && x < y
    ensures b * y >= b * x + b
  {
    var k := y - x;
    Distribute(b, x, k);
    MulAtLeast(b, k);
  }

  lemma Distribute(b: int, x: int, k: int)
    ensures b * (x + k) == b * x + b * k
  {
  }

  lemma {:induction false} MulAtLeast(b: nat, k: nat)
    requires k >= 1
    ensures b * k >= b
    decreases k
  {
    if k > 1 {
      MulAtLeast(b, k - 1);
      Distribute(b, k - 1, 1);
    }
  }

  /** `format!("{} {}", n, singular_or_plural(unit, n))`. */
  function Phrase(n: int, unit: string): string
    requires n > 0
  {
    Decimal(n) + " " + SingularOrPlural(unit, n)
  }

  /** The glue `as_text` pushes before a component that ends the list: a
      "," when the text so far holds ", ", then " and ". */
  function Conjoin(out: string): string {
    (if Contains(out, ", ") then out + "," else out) + " and "
  }

  /** The state `as_text` carries between its four blocks: the text so far
      and its `already_present` flag. */
  datatype Acc = Acc(out: string, present: bool)

  /** The days block: the day count starts the text. */
  function DaysStep(p: Parts): Acc {
    if p.days > 0 then Acc(Phrase(p.days, "day"), true) else Acc("", false)
  }

  /** The hours block: ", " when something precedes and minutes or seconds
      follow, the glue when the text is non-empty and minutes or seconds are
      zero, then the hour count. */
  function HoursStep(acc: Acc, p: Parts): Acc {
    if p.hours > 0 then
      var a := if acc.present && (p.minutes != 0 || p.seconds != 0) then acc.out + ", " else acc.out;
      var b := if a != "" && (p.minutes == 0 || p.seconds == 0) then Conjoin(a) else a;
      Acc(b + Phrase(p.hours, "hour"), true)
    else acc
  }

  /** The minutes block: ", " when something precedes and seconds follow,
      the glue when the text is non-empty and seconds are zero, then the
      minute count. */
  function MinutesStep(acc: Acc, p: Parts): Acc {
    if p.minutes > 0 then
      var a := if acc.present && p.seconds != 0 then acc.out + ", " else acc.out;
      var b := if a != "" && p.seconds == 0 then Conjoin(a) else a;
      Acc(b + Phrase(p.minutes, "minute"), true)
    else acc
  }

  /** The seconds block: the glue when something precedes, then the second
      count; `already_present` is left as it was. */
  function SecondsStep(acc: Acc, p: Parts): Acc {
    if p.seconds > 0 then
      Acc((if acc.present then Conjoin(acc.out) else acc.out) + Phrase(p.seconds, "second"), acc.present)
    else acc
  }

  /** The phrase `as_text` builds from the components, block for block as
      written, with "0 seconds" when nothing was written. */
  function Render(p: Parts): string {
    var acc := SecondsStep(MinutesStep(HoursStep(DaysStep(p), p), p), p);
    if acc.out == "" && !acc.present then "0 seconds" else acc.out
  }

  /** `as_text(millis)` as written. It reads "0 seconds" exactly when no
      component is positive, and for a non-negative count it is the clean
      English list of the components exactly when they are not in the
      malformed combination. */
  function AsText(millis: I64): (r: string)
    ensures r == "0 seconds" <==> !AnyPositive(Decompose(millis))
    ensures millis >= 0 ==> (r == Intended(Decompose(millis)) <==> !Malformed(Decompose(millis)))
  {
    var p := Decompose(millis);
    RenderFacts(p);
    Render(p)
  }

  /** The two facts `AsText` states, for any components that are all
      non-negative or none positive. */
  lemma RenderFacts(p: Parts)
    requires NonNegative(p) || !AnyPositive(p)
    ensures Render(p) == "0 seconds" <==> !AnyPositive(p)
    ensures NonNegative(p) ==> (Render(p) == Intended(p) <==> !Malformed(p))
  {
    if AnyPositive(p) {
      RenderSomethingPositive(p);
    } else {
      RenderNothingPositive(p);
    }
    if NonNegative(p) {
      RenderIsListUnlessMalformed(p);
    }
  }

  /** The positive components, largest unit first, each with its unit name. */
  function Items(p: Parts): (items: seq<string>)
    ensures |items| <= 4
    ensures forall i :: 0 <= i < |items| ==> ',' !in items[i]
  {
    PiecesHaveNoComma(p);
    var major := Present(p.days, "day") + Present(p.hours, "hour");
    var minor := Present(p.minutes, "minute") + Present(p.seconds, "second");
    assert forall i :: 0 <= i < |major| ==> major[i] == Piece(p.days, "day") || major[i] == Piece(p.hours, "hour");
    assert forall i :: 0 <= i < |minor| ==> minor[i] == Piece(p.minutes, "minute") || minor[i] == Piece(p.seconds, "second");
    major + minor
  }

  /** The one-item list of a positive component, or the empty list. */
  function Present(n: int, unit: string): (r: seq<string>)
    ensures |r| <= 1
    ensures forall i :: 0 <= i < |r| ==> r[i] == Piece(n, unit)
  {
    if n > 0 then [Phrase(n, unit)] else []
  }

  /** An English list: "X", "X and Y", or "X, Y, and Z" with the serial
      comma for three or more items. */
  function ListPhrase(items: seq<string>): string
    requires |items| > 0
  {
    if |items| == 1 then items[0]
    else if |items| == 2 then items[0] + " and " + items[1]
    else Join(items[..|items| - 1], ", ") + ", and " + items[|items| - 1]
  }

  /** The flag combination for which the written glue goes wrong: days and
      hours present and exactly one of minutes and seconds. */
  predicate Malformed(p: Parts) {
    p.days > 0 && p.hours > 0 && ((p.minutes > 0) != (p.seconds > 0))
  }

  /** The phrase the duration format describes: the positive components as
      an English list, or "0 seconds" when there are none. */
  function Intended(p: Parts): string {
    var items := Items(p);
    if |items| == 0 then "0 seconds" else ListPhrase(items)
  }

  lemma PhraseHasNoComma(n: int, unit: string)
    requires n > 0 && ',' !in unit
    ensures ',' !in Phrase(n, unit)
  {
    assert ',' !in Decimal(n) by {
      assert forall i :: 0 <= i < |Decimal(n)| ==> IsDigit(Decimal(n)[i]);
    }
  }

  /** The written glue finds no ", " in a text without commas. */
  lemma ConjoinNoComma(s: string)
    requires ',' !in s
    ensures Conjoin(s) == s + " and "
  {
    NotContainsWithoutHead(s, ", ");
  }

  /** The written glue adds a "," after any text holding ", ". */
  lemma ConjoinAfterComma(x: string, y: string)
    ensures Conjoin(x + ", " + y) == x + ", " + y + ", and "
  {
    ContainsInfix(x, ", ", y);
  }

  /** The text of a positive component, or "" for an absent one. */
  function Piece(n: int, unit: string): string {
    if n > 0 then Phrase(n, unit) else ""
  }

  predicate NoCommaPieces(p: Parts) {
    ',' !in Piece(p.days, "day") && ',' !in Piece(p.hours, "hour") &&
    ',' !in Piece(p.minutes, "minute") && ',' !in Piece(p.seconds, "second")
  }

  lemma PiecesHaveNoComma(p: Parts)
    ensures NoCommaPieces(p)
  {
    if p.days > 0 { PhraseHasNoComma(p.days, "day"); }
    if p.hours > 0 { PhraseHasNoComma(p.hours, "hour"); }
    if p.minutes > 0 { PhraseHasNoComma(p.minutes, "minute"); }
    if p.seconds > 0 { PhraseHasNoComma(p.seconds, "second"); }
  }

  /** All four components present: "D, H, M, and S". */
  lemma RenderAllFour(p: Parts)
    requires NoCommaPieces(p) && p.days > 0 && p.hours > 0 && p.minutes > 0 && p.seconds > 0
    ensures Render(p) == Intended(p)
  {
    var D, H := Phrase(p.days, "day"), Phrase(p.hours, "hour");
    var M, S := Phrase(p.minutes, "minute"), Phrase(p.seconds, "second");
    var a1 := HoursStep(DaysStep(p), p);
    assert a1 == Acc(D + ", " + H, true);
    var a2 := MinutesStep(a1, p);
    assert a2 == Acc(D + ", " + H + ", " + M, true);
    ConjoinAfterComma(D + ", " + H, M);
    assert SecondsStep(a2, p) == Acc(D + ", " + H + ", " + M + ", and " + S, true);
    var items := Items(p);
    assert items == [D, H, M, S];
    assert items[..3] == [D, H, M];
    Join3(D, H, M, ", ");
  }

  /** The glue of the hours block when days precede and exactly one of
      minutes and seconds follows: "D, , and H". */
  lemma HoursAfterDaysMisfires(p: Parts)
    requires NonNegative(p) && NoCommaPieces(p) && Malformed(p)
    ensures HoursStep(DaysStep(p), p) ==
      Acc(Phrase(p.days, "day") + ", , and " + Phrase(p.hours, "hour"), true)
  {
    var D := Phrase(p.days, "day");
    var a := D + ", ";
    ConjoinAfterComma(D, "");
    assert D + ", " + "" == a;
    assert Conjoin(a) == a + ", and ";
    assert a + ", and " == D + ", , and ";
  }

  /** After the misfired hours glue the text holds ", ", so the next glue
      adds ", and ". */
  lemma ConjoinAfterMisfire(d: string, h: string)
    ensures Conjoin(d + ", , and " + h) == d + ", , and " + h + ", and "
  {
    ConjoinAfterComma(d, ", and " + h);
    assert d + ", , and " + h == d + ", " + (", and " + h);
    assert d + ", " + (", and " + h) + ", and " == d + ", , and " + h + ", and ";
  }

  /** Days and hours with exactly one of minutes and seconds: the written
      glue yields "D, , and H, and X". */
  lemma RenderMalformedText(p: Parts)
    requires NonNegative(p) && NoCommaPieces(p) && Malformed(p)
    ensures var X := if p.minutes > 0 then Phrase(p.minutes, "minute") else Phrase(p.seconds, "second");
      Render(p) == Phrase(p.days, "day") + ", , and " + Phrase(p.hours, "hour") + ", and " + X
  {
    var D, H := Phrase(p.days, "day"), Phrase(p.hours, "hour");
    HoursAfterDaysMisfires(p);
    var a1 := Acc(D + ", , and " + H, true);
    ConjoinAfterMisfire(D, H);
    if p.minutes > 0 {
      MinutesAfterMisfire(p, a1);
    } else {
      SecondsAfterMisfire(p, a1);
    }
  }

  lemma MinutesAfterMisfire(p: Parts, a1: Acc)
    requires p.minutes > 0 && p.seconds == 0 && a1.present && a1.out != ""
    ensures SecondsStep(MinutesStep(a1, p), p) == Acc(Conjoin(a1.out) + Phrase(p.minutes, "minute"), true)
  {
  }

  lemma SecondsAfterMisfire(p: Parts, a1: Acc)
    requires p.minutes == 0 && p.seconds > 0 && a1.present
    ensures SecondsStep(MinutesStep(a1, p), p) == Acc(Conjoin(a1.out) + Phrase(p.seconds, "second"), true)
  {
  }

  /** The three-item English list. */
  lemma ListPhrase3(x: string, y: string, z: string)
    ensures ListPhrase([x, y, z]) == x + ", " + y + ", and " + z
  {
    assert [x, y, z][..2] == [x, y];
    Join2(x, y, ", ");
  }

  /** In the malformed combination the components form a three-item list. */
  lemma MalformedItems(p: Parts)
    requires NonNegative(p) && Malformed(p)
    ensures var X := if p.minutes > 0 then Phrase(p.minutes, "minute") else Phrase(p.seconds, "second");
      Items(p) == [Phrase(p.days, "day"), Phrase(p.hours, "hour"), X] &&
      Intended(p) == Phrase(p.days, "day") + ", " + Phrase(p.hours, "hour") + ", and " + X
  {
    var X := if p.minutes > 0 then Phrase(p.minutes, "minute") else Phrase(p.seconds, "second");
    assert Items(p) == [Phrase(p.days, "day"), Phrase(p.hours, "hour"), X];
    ListPhrase3(Phrase(p.days, "day"), Phrase(p.hours, "hour"), X);
  }

  /** In the malformed combination the written text differs from the list:
      it is six characters longer. */
  lemma RenderMalformed(p: Parts)
    requires NonNegative(p) && NoCommaPieces(p) && Malformed(p)
    ensures |Render(p)| == |Intended(p)| + 6
  {
    var D, H := Phrase(p.days, "day"), Phrase(p.hours, "hour");
    var X := if p.minutes > 0 then Phrase(p.minutes, "minute") else Phrase(p.seconds, "second");
    RenderMalformedText(p);
    MalformedItems(p);
    MisfireLength(D, H, X);
  }

  lemma MisfireLength(d: string, h: string, x: string)
    ensures |d + ", , and " + h + ", and " + x| == |d + ", " + h + ", and " + x| + 6
  {
    assert |", , and "| == 8 && |", and "| == 6 && |", "| == 2;
  }

  /** Days and hours with neither minutes nor seconds: "D and H". */
  lemma RenderDaysAndHoursOnly(p: Parts)
    requires NoCommaPieces(p) && p.days > 0 && p.hours > 0 && p.minutes == 0 && p.seconds == 0
    ensures Render(p) == Intended(p)
  {
    var D, H := Phrase(p.days, "day"), Phrase(p.hours, "hour");
    ConjoinNoComma(D);
    assert HoursStep(DaysStep(p), p) == Acc(D + " and " + H, true);
    assert Items(p) == [D, H];
  }

  /** The minute and second items, those that are positive. */
  function MinorItems(p: Parts): seq<string> {
    (if p.minutes > 0 then [Phrase(p.minutes, "minute")] else [])
    + (if p.seconds > 0 then [Phrase(p.seconds, "second")] else [])
  }

  /** After a single leading item with the flag set (days alone, or hours
      alone), the minutes and seconds blocks complete the clean list. */
  lemma AfterLead(lead: string, p: Parts)
    requires NonNegative(p) && NoCommaPieces(p) && ',' !in lead && lead != ""
    ensures var acc := SecondsStep(MinutesStep(Acc(lead, true), p), p);
      acc.present && acc.out == ListPhrase([lead] + MinorItems(p))
  {
    if p.minutes > 0 && p.seconds > 0 {
      AfterLeadBoth(lead, p);
    } else if p.minutes > 0 {
      AfterLeadOne(lead, p);
    } else if p.seconds > 0 {
      AfterLeadOne(lead, p);
    } else {
      assert [lead] + MinorItems(p) == [lead];
    }
  }

  /** Minutes and seconds after the lead: "L, M, and S". */
  lemma AfterLeadBoth(lead: string, p: Parts)
    requires NoCommaPieces(p) && ',' !in lead && lead != "" && p.minutes > 0 && p.seconds > 0
    ensures var acc := SecondsStep(MinutesStep(Acc(lead, true), p), p);
      acc.present && acc.out == ListPhrase([lead] + MinorItems(p))
  {
    var M, S := Piece(p.minutes, "minute"), Piece(p.seconds, "second");
    var items := [lead] + MinorItems(p);
    var a2 := MinutesStep(Acc(lead, true), p);
    assert a2 == Acc(lead + ", " + M, true);
    ConjoinAfterComma(lead, M);
    assert SecondsStep(a2, p) == Acc(lead + ", " + M + ", and " + S, true);
    assert items == [lead, M, S];
    assert items[..2] == [lead, M];
    Join2(lead, M, ", ");
  }

  /** Exactly one of minutes and seconds after the lead: "L and X". */
  lemma AfterLeadOne(lead: string, p: Parts)
    requires NonNegative(p) && NoCommaPieces(p) && ',' !in lead && lead != ""
    requires (p.minutes > 0) != (p.seconds > 0)
    ensures var acc := SecondsStep(MinutesStep(Acc(lead, true), p), p);
      acc.present && acc.out == ListPhrase([lead] + MinorItems(p))
  {
    ConjoinNoComma(lead);
    if p.minutes > 0 {
      var M := Piece(p.minutes, "minute");
      assert MinutesStep(Acc(lead, true), p) == Acc(lead + " and " + M, true);
      assert [lead] + MinorItems(p) == [lead, M];
    } else {
      var S := Piece(p.seconds, "second");
      assert SecondsStep(MinutesStep(Acc(lead, true), p), p) == Acc(lead + " and " + S, true);
      assert [lead] + MinorItems(p) == [lead, S];
    }
  }

  /** With days and no hours. */
  lemma RenderWithDaysOnly(p: Parts)
    requires NonNegative(p) && NoCommaPieces(p) && p.days > 0 && p.hours == 0
    ensures Render(p) == Intended(p)
  {
    var D := Phrase(p.days, "day");
    assert HoursStep(DaysStep(p), p) == Acc(D, true);
    assert Items(p) == [D] + MinorItems(p);
    RenderAfterLead(D, p);
  }

  /** With hours and no days. */
  lemma RenderWithHoursOnly(p: Parts)
    requires NonNegative(p) && NoCommaPieces(p) && p.days == 0 && p.hours > 0
    ensures Render(p) == Intended(p)
  {
    var H := Phrase(p.hours, "hour");
    HoursLead(p);
    assert Items(p) == [H] + MinorItems(p);
    RenderAfterLead(H, p);
  }

  /** Without days, the hours block starts the text with the hour count. */
  lemma HoursLead(p: Parts)
    requires p.days == 0 && p.hours > 0
    ensures HoursStep(DaysStep(p), p) == Acc(Phrase(p.hours, "hour"), true)
  {
    var H := Phrase(p.hours, "hour");
    assert DaysStep(p) == Acc("", false);
    assert "" + H == H;
  }

  /** A single leading item, with the items being that lead and then the
      minute and second items: the written text is the clean list. */
  lemma RenderAfterLead(lead: string, p: Parts)
    requires NonNegative(p) && NoCommaPieces(p) && ',' !in lead && lead != ""
    requires HoursStep(DaysStep(p), p) == Acc(lead, true)
    requires Items(p) == [lead] + MinorItems(p)
    ensures Render(p) == Intended(p)
  {
    AfterLead(lead, p);
  }

  /** With neither days nor hours. */
  lemma RenderWithoutDaysOrHours(p: Parts)
    requires NonNegative(p) && NoCommaPieces(p) && p.days == 0 && p.hours == 0
    ensures Render(p) == Intended(p)
  {
    assert HoursStep(DaysStep(p), p) == Acc("", false);
    assert Items(p) == MinorItems(p);
    MinorsFromNothing(p);
  }

  /** With nothing written before them, the minutes and seconds blocks
      write the clean list of the minor items, or nothing at all. */
  lemma MinorsFromNothing(p: Parts)
    requires NonNegative(p) && NoCommaPieces(p)
    ensures var acc := SecondsStep(MinutesStep(Acc("", false), p), p);
      (|MinorItems(p)| == 0 ==> acc == Acc("", false)) &&
      (|MinorItems(p)| > 0 ==> acc.out == ListPhrase(MinorItems(p)) && acc.out != "")
  {
    var items := MinorItems(p);
    if p.minutes > 0 {
      var M := Phrase(p.minutes, "minute");
      assert MinutesStep(Acc("", false), p) == Acc(M, true);
      if p.seconds > 0 {
        var S := Phrase(p.seconds, "second");
        ConjoinNoComma(M);
        assert items == [M, S];
      } else {
        assert items == [M];
      }
    } else if p.seconds > 0 {
      var S := Phrase(p.seconds, "second");
      assert SecondsStep(Acc("", false), p) == Acc(S, false);
      assert items == [S];
    }
  }

  /** `as_text` renders the clean English list exactly when the components
      avoid the malformed combination. */
  lemma RenderIsListUnlessMalformed(p: Parts)
    requires NonNegative(p)
    ensures Render(p) == Intended(p) <==> !Malformed(p)
  {
    PiecesHaveNoComma(p);
    if Malformed(p) {
      RenderMalformed(p);
    } else if p.days > 0 && p.hours > 0 && p.minutes > 0 {
      RenderAllFour(p);
    } else if p.days > 0 && p.hours > 0 {
      RenderDaysAndHoursOnly(p);
    } else if p.days > 0 {
      RenderWithDaysOnly(p);
    } else if p.hours > 0 {
      RenderWithHoursOnly(p);
    } else {
      RenderWithoutDaysOrHours(p);
    }
  }

  predicate AnyPositive(p: Parts) {
    p.days > 0 || p.hours > 0 || p.minutes > 0 || p.seconds > 0
  }

  /** Nothing positive, nothing written: "0 seconds". */
  lemma RenderNothingPositive(p: Parts)
    requires !AnyPositive(p)
    ensures Render(p) == "0 seconds"
  {
    assert SecondsStep(MinutesStep(HoursStep(DaysStep(p), p), p), p) == Acc("", false);
  }

  /** The phrase of a positive count starts with a non-zero digit. */
  lemma PhraseLeadingDigit(n: int, unit: string)
    requires n > 0
    ensures |Phrase(n, unit)| > 0 && Phrase(n, unit)[0] != '0'
  {
    assert Phrase(n, unit)[0] == Decimal(n)[0];
  }

  /** Something positive: the written text starts with a non-zero digit. */
  lemma RenderSomethingPositive(p: Parts)
    requires NonNegative(p) && AnyPositive(p)
    ensures Render(p) != "0 seconds"
  {
    PiecesHaveNoComma(p);
    RenderIsListUnlessMalformed(p);
    if Malformed(p) {
      RenderMalformedText(p);
      PhraseLeadingDigit(p.days, "day");
      var D := Phrase(p.days, "day");
      assert Render(p)[0] == D[0];
    } else {
      IntendedNotZeroSeconds(p);
    }
  }

  /** `as_text` is "0 seconds" exactly when no component is positive: any
      duration under a second, and every negative one. */
  lemma ZeroSecondsIff(millis: I64)
    ensures AsText(millis) == "0 seconds" <==> !AnyPositive(Decompose(millis))
  {
    var p := Decompose(millis);
    if !AnyPositive(p) {
      RenderNothingPositive(p);
    } else {
      RenderSomethingPositive(p);
    }
  }

  lemma PhraseOne(unit: string)
    ensures Phrase(1, unit) == "1 " + unit
  {
  }

  /** The four-item English list. */
  lemma ListPhrase4(w: string, x: string, y: string, z: string)
    ensures ListPhrase([w, x, y, z]) == w + ", " + x + ", " + y + ", and " + z
  {
    assert [w, x, y, z][..3] == [w, x, y];
    Join3(w, x, y, ", ");
  }

  /** `DecomposeRecompose` at a duration given by its value. */
  lemma DecomposeAt(millis: I64, d: nat, h: nat, m: nat, s: nat, ms: nat)
    requires h < 24 && m < 60 && s < 60 && ms < 1000
    requires millis == d * 86_400_000 + h * 3_600_000 + m * 60_000 + s * 1000 + ms
    ensures Decompose(millis) == Parts(d, h, m, s)
  {
    DecomposeRecompose(d, h, m, s, ms);
  }

  lemma RenderOneSecond(p: Parts)
    requires p == Parts(0, 0, 0, 1)
    ensures Render(p) == "1 second"
  {
    PhraseOne("second");
    assert "1 " + "second" == "1 second";
    RenderWithoutDaysOrHours(p);
    assert Items(p) == [Phrase(1, "second")];
  }

  lemma RenderMinuteAndSecond(p: Parts)
    requires p == Parts(0, 0, 1, 1)
    ensures Render(p) == "1 minute and 1 second"
  {
    PhraseOne("minute");
    PhraseOne("second");
    PiecesHaveNoComma(p);
    RenderWithoutDaysOrHours(p);
    IntendedMinutesAndSeconds(p);
    MinuteAndSecondText(Phrase(1, "minute"), Phrase(1, "second"));
  }

  /** Minutes and seconds alone: the two-item list. */
  lemma IntendedMinutesAndSeconds(p: Parts)
    requires p.days <= 0 && p.hours <= 0 && p.minutes > 0 && p.seconds > 0
    ensures Intended(p) == Phrase(p.minutes, "minute") + " and " + Phrase(p.seconds, "second")
  {
    assert Items(p) == [Phrase(p.minutes, "minute"), Phrase(p.seconds, "second")];
  }

  lemma MinuteAndSecondText(m: string, s: string)
    requires m == "1 " + "minute" && s == "1 " + "second"
    ensures m + " and " + s == "1 minute and 1 second"
  {
    assert m == "1 minute" && s == "1 second";
    assert m + " and " == "1 minute and ";
  }

  lemma RenderOneOfEach(p: Parts)
    requires p == Parts(1, 1, 1, 1)
    ensures Render(p) == "1 day, 1 hour, 1 minute, and 1 second"
  {
    PhraseOne("day");
    PhraseOne("hour");
    PhraseOne("minute");
    PhraseOne("second");
    PiecesHaveNoComma(p);
    RenderAllFour(p);
    IntendedAllFour(p);
    OneOfEachText(Phrase(1, "day"), Phrase(1, "hour"), Phrase(1, "minute"), Phrase(1, "second"));
  }

  /** All four components present: the list has four items. */
  lemma IntendedAllFour(p: Parts)
    requires p.days > 0 && p.hours > 0 && p.minutes > 0 && p.seconds > 0
    ensures Intended(p) == Phrase(p.days, "day") + ", " + Phrase(p.hours, "hour") + ", "
      + Phrase(p.minutes, "minute") + ", and " + Phrase(p.seconds, "second")
  {
    var D, H := Phrase(p.days, "day"), Phrase(p.hours, "hour");
    var M, S := Phrase(p.minutes, "minute"), Phrase(p.seconds, "second");
    assert Items(p) == [D, H, M, S];
    ListPhrase4(D, H, M, S);
  }

  lemma OneOfEachText(d: string, h: string, m: string, s: string)
    requires d == "1 " + "day" && h == "1 " + "hour" && m == "1 " + "minute" && s == "1 " + "second"
    ensures d + ", " + h + ", " + m + ", and " + s == "1 day, 1 hour, 1 minute, and 1 second"
  {
    assert d == "1 day" && h == "1 hour" && m == "1 minute" && s == "1 second";
    assert d + ", " == "1 day, ";
    assert d + ", " + h == "1 day, 1 hour";
    assert d + ", " + h + ", " == "1 day, 1 hour, ";
    assert d + ", " + h + ", " + m == "1 day, 1 hour, 1 minute";
    assert d + ", " + h + ", " + m + ", and " == "1 day, 1 hour, 1 minute, and ";
  }

  lemma RenderDayHourMinute(p: Parts)
    requires p == Parts(1, 1, 1, 0)
    ensures Render(p) == "1 day, , and 1 hour, and 1 minute"
    ensures Intended(p) == "1 day, 1 hour, and 1 minute"
  {
    var D, H, M := Phrase(p.days, "day"), Phrase(p.hours, "hour"), Phrase(p.minutes, "minute");
    PhraseOne("day");
    PhraseOne("hour");
    PhraseOne("minute");
    PiecesHaveNoComma(p);
    RenderMalformedText(p);
    MalformedItems(p);
    DayHourMinuteText(D, H, M);
  }

  lemma DayHourMinuteText(d: string, h: string, m: string)
    requires d == "1 " + "day" && h == "1 " + "hour" && m == "1 " + "minute"
    ensures d + ", , and " + h + ", and " + m == "1 day, , and 1 hour, and 1 minute"
    ensures d + ", " + h + ", and " + m == "1 day, 1 hour, and 1 minute"
  {
    assert d == "1 day" && h == "1 hour" && m == "1 minute";
    assert d + ", , and " == "1 day, , and ";
    assert d + ", , and " + h == "1 day, , and 1 hour";
    assert d + ", , and " + h + ", and " == "1 day, , and 1 hour, and ";
    assert d + ", " + h == "1 day, 1 hour";
    assert d + ", " + h + ", and " == "1 day, 1 hour, and ";
  }

  /** `as_text` of one second. */
  lemma AsTextOneSecond()
    ensures AsText(1000) == "1 second"
  {
    AsTextSecondExample(1000);
  }

  /** `as_text` of a minute and a second. */
  lemma AsTextMinuteAndSecond()
    ensures AsText(61000) == "1 minute and 1 second"
  {
    AsTextMinuteExample(61000);
  }

  /** `as_text` of one day, hour, minute and second. */
  lemma AsTextOneOfEach()
    ensures AsText(90061000) == "1 day, 1 hour, 1 minute, and 1 second"
  {
    AsTextDayExample(90061000);
  }

  lemma AsTextSecondExample(millis: I64)
    requires millis == 1000
    ensures AsText(millis) == "1 second"
  {
    DecomposeAt(millis, 0, 0, 0, 1, 0);
    RenderOneSecond(Decompose(millis));
  }

  lemma AsTextMinuteExample(millis: I64)
    requires millis == 61000
    ensures AsText(millis) == "1 minute and 1 second"
  {
    DecomposeAt(millis, 0, 0, 1, 1, 0);
    RenderMinuteAndSecond(Decompose(millis));
  }

  lemma AsTextDayExample(millis: I64)
    requires millis == 90061000
    ensures AsText(millis) == "1 day, 1 hour, 1 minute, and 1 second"
  {
    DecomposeAt(millis, 1, 1, 1, 1, 0);
    RenderOneOfEach(Decompose(millis));
  }

  /** As written, one day, one hour, one minute and no seconds come out as
      "1 day, , and 1 hour, and 1 minute" instead of the clean list. */
  lemma AsTextMalformedExample()
    ensures AsText(90060000) == "1 day, , and 1 hour, and 1 minute"
    ensures AsTextIntended(90060000) == "1 day, 1 hour, and 1 minute"
  {
    MalformedExampleAt(90060000);
  }

  lemma MalformedExampleAt(millis: I64)
    requires millis == 90060000
    ensures AsText(millis) == "1 day, , and 1 hour, and 1 minute"
    ensures AsTextIntended(millis) == "1 day, 1 hour, and 1 minute"
  {
    DecomposeAt(millis, 1, 1, 1, 0, 0);
    RenderDayHourMinute(Decompose(millis));
    assert AsTextIntended(millis) == Intended(Decompose(millis));
  }

  /** Comma count of an English list of comma-free items: none for one or
      two items, one per item but the last for three or more. */
  lemma ListPhraseCommas(items: seq<string>)
    requires |items| > 0
    requires forall i :: 0 <= i < |items| ==> ',' !in items[i]
    ensures Count(ListPhrase(items), ',') == if |items| >= 3 then |items| - 1 else 0
  {
    if |items| == 1 {
      CountAbsent(items[0], ',');
    } else if |items| == 2 {
      CountAbsent(items[0] + " and " + items[1], ',');
    } else {
      var front := items[..|items| - 1];
      JoinCommas(front);
      CountConcat(Join(front, ", "), ", and ", ',');
      CountConcat(Join(front, ", ") + ", and ", items[|items| - 1], ',');
      CountAbsent(items[|items| - 1], ',');
      assert Count(", and ", ',') == 1;
    }
  }

  lemma {:induction false} JoinCommas(items: seq<string>)
    requires |items| > 0
    requires forall i :: 0 <= i < |items| ==> ',' !in items[i]
    ensures Count(Join(items, ", "), ',') == |items| - 1
    decreases |items|
  {
    if |items| == 1 {
      CountAbsent(items[0], ',');
    } else {
      JoinCommas(items[1..]);
      CountAbsent(items[0], ',');
      CountConcat(items[0], ", ", ',');
      CountConcat(items[0] + ", ", Join(items[1..], ", "), ',');
      assert Count(", ", ',') == 1;
    }
  }

  /** The corrected duration phrase: the components of `millis` as a clean
      English list. It carries one comma per component but the last when
      there are three or more and none otherwise, it agrees with the written
      `as_text` whenever the flags do not misfire, and it is "0 seconds"
      exactly when no component is positive. */
  function AsTextIntended(millis: I64): (r: string)
    ensures var p := Decompose(millis); var n := |Items(p)|;
      Count(r, ',') == (if n >= 3 then n - 1 else 0)
    ensures millis >= 0 && !Malformed(Decompose(millis)) ==> r == AsText(millis)
    ensures r == "0 seconds" <==> !AnyPositive(Decompose(millis))
  {
    var p := Decompose(millis);
    IntendedCommas(p);
    IntendedAgrees(millis);
    IntendedZeroSecondsIff(p);
    Intended(p)
  }

  /** One comma per item but the last in a list of three or more. */
  lemma IntendedCommas(p: Parts)
    ensures var n := |Items(p)|; Count(Intended(p), ',') == (if n >= 3 then n - 1 else 0)
  {
    if |Items(p)| == 0 {
      assert Count("0 seconds", ',') == 0;
    } else {
      ListPhraseCommas(Items(p));
    }
  }

  /** The corrected phrase is "0 seconds" exactly when nothing is positive. */
  lemma IntendedZeroSecondsIff(p: Parts)
    ensures Intended(p) == "0 seconds" <==> !AnyPositive(p)
  {
    if |Items(p)| > 0 {
      IntendedNotZeroSeconds(p);
    }
  }

  lemma IntendedAgrees(millis: I64)
    ensures millis >= 0 && !Malformed(Decompose(millis)) ==>
      Intended(Decompose(millis)) == AsText(millis)
  {
    if millis >= 0 {
      RenderIsListUnlessMalformed(Decompose(millis));
    }
  }

  /** A non-empty list never reads "0 seconds": it starts with a count that
      has no leading zero. */
  lemma IntendedNotZeroSeconds(p: Parts)
    requires |Items(p)| > 0
    ensures ListPhrase(Items(p)) != "0 seconds"
  {
    var items := Items(p);
    assert items[0][0] != '0' by {
      if p.days > 0 { assert items[0] == Phrase(p.days, "day"); }
      else if p.hours > 0 { assert items[0] == Phrase(p.hours, "hour"); }
      else if p.minutes > 0 { assert items[0] == Phrase(p.minutes, "minute"); }
      else { assert items[0] == Phrase(p.seconds, "second"); }
    }
    if |items| == 2 {
      assert ListPhrase(items)[0] == items[0][0];
    } else if |items| > 2 {
      var front := items[..|items| - 1];
      assert Join(front, ", ")[0] == front[0][0];
      assert ListPhrase(items)[0] == items[0][0];
    }
  }

  /** As written, the malformed combination carries three commas for a
      three-item list, one more than the clean list. */
  lemma MalformedCommas(p: Parts)
    requires NonNegative(p) && Malformed(p)
    ensures |Items(p)| == 3
    ensures Count(Render(p), ',') == 3
    ensures Count(Intended(p), ',') == 2
  {
    var D := Phrase(p.days, "day");
    var H := Phrase(p.hours, "hour");
    var X := if p.minutes > 0 then Phrase(p.minutes, "minute") else Phrase(p.seconds, "second");
    PiecesHaveNoComma(p);
    RenderMalformedText(p);
    MalformedItems(p);
    ListPhraseCommas(Items(p));
    GlueCommas(D, H, X);
  }

  lemma GlueCommas(d: string, h: string, x: string)
    requires ',' !in d && ',' !in h && ',' !in x
    ensures Count(d + ", , and " + h + ", and " + x, ',') == 3
  {
    CountAbsent(d, ',');
    CountAbsent(h, ',');
    CountAbsent(x, ',');
    CountConcat(d, ", , and ", ',');
    CountConcat(d + ", , and ", h, ',');
    CountConcat(d + ", , and " + h, ", and ", ',');
    CountConcat(d + ", , and " + h + ", and ", x, ',');
    assert Count(", , and ", ',') == 2;
    assert Count(", and ", ',') == 1;
  }

  /** The `as i64` cast Uptime applies to its `u128` millisecond count:
      the low 64 bits read as two's complement. */
  function WrapI64(n: nat): (r: I64)
    ensures (n - r) % 0x1_0000_0000_0000_0000 == 0
    ensures n < 0x8000_0000_0000_0000 ==> r == n
  {
    var low := n % 0x1_0000_0000_0000_0000;
    if low < 0x8000_0000_0000_0000 then low else low - 0x1_0000_0000_0000_0000
  }

  /** Every duration under a second reads "0 seconds". */
  lemma UnderASecond(millis: I64)
    requires 0 <= millis < 1000
    ensures AsText(millis) == "0 seconds"
  {
    var p := Decompose(millis);
    assert millis / 1000 == 0 && millis / 60_000 == 0;
    assert millis / 3_600_000 == 0 && millis / 86_400_000 == 0;
    assert !AnyPositive(p);
  }

  /** The description of the Uptime command's reply for an uptime of
      `elapsedMillis` milliseconds. */
  function UptimeText(elapsedMillis: nat): (r: string)
    ensures elapsedMillis < 1000 ==> r == "0 seconds"
    ensures elapsedMillis < 0x8000_0000_0000_0000 ==> r == AsText(elapsedMillis)
  {
    if elapsedMillis < 1000 then
      UnderASecond(elapsedMillis);
      AsText(WrapI64(elapsedMillis))
    else
      AsText(WrapI64(elapsedMillis))
  }
}
