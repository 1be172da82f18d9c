/**
 The two duration fields and their JSON texts.  Timedelta prints days and seconds and parses
 an optional list of units; RelativeTime prints and parses HH:MM:SS.
 */
module Durations {
  import opened Options

  /** Python's timedelta, in its normal form. */
  datatype Delta = Delta(days: int, seconds: int, micros: int)

  ghost predicate Normal(d: Delta) { 0 <= d.seconds < 86400 && 0 <= d.micros < 1_000_000 }

  function FromSeconds(total: int): (d: Delta)
    ensures Normal(d) && d.days * 86400 + d.seconds == total && d.micros == 0
  {
    Delta(total / 86400, total % 86400, 0)
  }

  // ---- decimal numbers ----

  predicate IsDigit(c: char) { '0' <= c <= '9' }

  predicate AllDigits(s: string) { forall i :: 0 <= i < |s| ==> IsDigit(s[i]) }

  function Digit(n: nat): (c: char)
    requires n < 10
    ensures IsDigit(c) && DigitValue(c) == n
  {
    '0' + n as char
  }

  function DigitValue(c: char): (n: nat)
    requires IsDigit(c)
    ensures n < 10
  {
    c as int - '0' as int
  }

  /** %d for a number that is not negative. */
  function Decimal(n: nat): (s: string)
    ensures s != "" && AllDigits(s)
    ensures n < 10 ==> |s| == 1
    ensures 10 <= n < 100 ==> |s| == 2
  {
    if n < 10 then [Digit(n)] else Decimal(n / 10) + [Digit(n % 10)]
  }

  /** int() of a string of digits. */
  function Number(s: string): nat
    requires AllDigits(s)
  {
    if s == "" then 0 else 10 * Number(s[..|s| - 1]) + DigitValue(s[|s| - 1])
  }

  lemma {:induction false} NumberOfDecimal(n: nat)
    ensures Number(Decimal(n)) == n
  {
    var s := Decimal(n);
    if n < 10 {
      assert s[..0] == "";
    } else {
      NumberOfDecimal(n / 10);
      assert s[..|s| - 1] == Decimal(n / 10);
    }
  }

  // ---- Timedelta ----

  predicate StartsWith(s: string, prefix: string) { |prefix| <= |s| && s[..|prefix|] == prefix }

  /** The number of leading digits. */
  function DigitCount(s: string): (n: nat)
    ensures n <= |s| && AllDigits(s[..n]) && (n < |s| ==> !IsDigit(s[n]))
  {
    if s == "" || !IsDigit(s[0]) then 0
    else
      var n := 1 + DigitCount(s[1..]);
      assert forall i :: 0 < i < n ==> s[i] == s[1..][i - 1];
      n
  }

  /** One optional group of the pattern: digits, a space, the unit, an optional s. */
  function Group(s: string, unit: string): (r: (Option<nat>, string))
    ensures |r.1| <= |s|
  {
    var n := DigitCount(s);
    var rest := s[n..];
    if n == 0 || !StartsWith(rest, " " + unit) then (None, s)
    else
      var after := rest[|unit| + 1..];
      (Some(Number(s[..n])), if StartsWith(after, "s") then after[1..] else after)
  }

  predicate IsSpace(c: char) { c == ' ' || c == '\t' || c == '\n' || c == '\r' || c == '\U{0B}' || c == '\U{0C}' }

  function SkipSpace(s: string): string { if s != "" && IsSpace(s[0]) then s[1..] else s }

  function OrZero(x: Option<nat>): nat { if x.Some? then x.value else 0 }

  /** Timedelta.from_json for a string: None when the pattern does not match. */
  function ParseTimedelta(s: string): Option<Delta> {
    var (d, s1) := Group(s, "day");
    var (h, s2) := Group(SkipSpace(s1), "hour");
    var (m, s3) := Group(SkipSpace(s2), "minute");
    var (sec, s4) := Group(SkipSpace(s3), "second");
    if s4 != "" && s4 != "\n" then None
    else Some(FromSeconds(Summed([d, h, m, sec], 4)))
  }

  /** The value of the first n of the groups days, hours, minutes, seconds, in seconds. */
  function Summed(groups: seq<Option<nat>>, n: nat): nat
    requires n <= |groups| == 4
  {
    if n == 0 then 0 else Summed(groups, n - 1) + InSeconds(OrZero(groups[n - 1]), n - 1)
  }

  function InSeconds(value: nat, position: nat): nat {
    match position
    case 0 => value * 86400
    case 1 => value * 3600
    case 2 => value * 60
    case _ => value
  }

  lemma SummedFour(groups: seq<Option<nat>>)
    requires |groups| == 4
    ensures Summed(groups, 4) == OrZero(groups[0]) * 86400 + OrZero(groups[1]) * 3600
                                 + OrZero(groups[2]) * 60 + OrZero(groups[3])
  {
    assert Summed(groups, 1) == OrZero(groups[0]) * 86400;
    assert Summed(groups, 2) == OrZero(groups[0]) * 86400 + OrZero(groups[1]) * 3600;
  }

  /** Timedelta.from_json: the loop over the groups of the match. */
  method TimedeltaFromJson(s: string) returns (r: Option<Delta>)
    ensures r == ParseTimedelta(s)
  {
    var (d, s1) := Group(s, "day");
    var (h, s2) := Group(SkipSpace(s1), "hour");
    var (m, s3) := Group(SkipSpace(s2), "minute");
    var (sec, s4) := Group(SkipSpace(s3), "second");
    if s4 != "" && s4 != "\n" {
      return None;
    }
    hide Group, SkipSpace;
    var groups, total := [d, h, m, sec], 0;
    for i := 0 to 4
      invariant total == Summed(groups, i)
    {
      if groups[i].Some? {
        total := total + InSeconds(groups[i].value, i);
      }
    }
    r := Some(FromSeconds(total));
  }

  /** One "%d %s" item, only for positive values. */
  function Items(value: int, unit: string): seq<string> {
    if value > 0 then [Decimal(value) + " " + unit] else []
  }

  function Join(items: seq<string>): string {
    if items == [] then ""
    else if |items| == 1 then items[0]
    else items[0] + " " + Join(items[1..])
  }

  /** The attributes to_json asks for; a timedelta has no hours and minutes, so they are 0. */
  function Attribute(d: Delta, name: string): int {
    if name == "days" then d.days else if name == "seconds" then d.seconds else 0
  }

  const UNITS: seq<string> := ["days", "hours", "minutes", "seconds"]

  function ItemsOf(d: Delta, names: seq<string>): seq<string> {
    if names == [] then []
    else ItemsOf(d, names[..|names| - 1]) + Items(Attribute(d, names[|names| - 1]), names[|names| - 1])
  }

  function PrintTimedelta(d: Delta): string { Join(Items(d.days, "days") + Items(d.seconds, "seconds")) }

  /** Timedelta.to_json: the loop over the four attribute names. */
  method TimedeltaToJson(d: Delta) returns (text: string)
    ensures text == PrintTimedelta(d)
  {
    var values: seq<string> := [];
    for i := 0 to |UNITS|
      invariant values == ItemsOf(d, UNITS[..i])
    {
      assert UNITS[..i + 1][..i] == UNITS[..i];
      var value := Attribute(d, UNITS[i]);
      if value > 0 {
        values := values + [Decimal(value) + " " + UNITS[i]];
      }
    }
    assert UNITS[..4] == UNITS;
    FourUnits(d);
    text := Join(values);
  }

  lemma FourUnits(d: Delta)
    ensures ItemsOf(d, UNITS) == Items(d.days, "days") + Items(d.seconds, "seconds")
  {
    var a := ["days"];
    var b := a + ["hours"];
    var c := b + ["minutes"];
    assert UNITS == c + ["seconds"] && UNITS[..3] == c && c[..2] == b && b[..1] == a && a[..0] == [];
    assert "hours" != "days" && "hours" != "seconds" && "minutes" != "days" && "minutes" != "seconds" by {
      assert "hours"[0] == 'h' && "minutes"[0] == 'm' && "days"[0] == 'd' && "seconds"[0] == 's';
    }
    assert ItemsOf(d, a) == Items(d.days, "days");
    assert ItemsOf(d, b) == ItemsOf(d, a);
    assert ItemsOf(d, c) == ItemsOf(d, b);
    assert "seconds" != "days" by {
      assert "seconds"[0] == 's';
    }
  }

  // ---- texts of units ----

  /** A number with its unit; no digits stand for a missing part. */
  function Part(digits: string, unit: string, plural: bool): string {
    if digits == "" then "" else digits + " " + unit + if plural then "s" else ""
  }

  /** Two texts with a space between them, if both are there. */
  function Spaced(a: string, b: string): string {
    if a == "" then b else if b == "" then a else a + " " + b
  }

  lemma GroupOfText(digits: string, unit: string, after: string)
    requires digits != "" && AllDigits(digits)
    ensures Group(digits + " " + unit + after, unit)
         == (Some(Number(digits)), if StartsWith(after, "s") then after[1..] else after)
  {
    hide Number;
    var s := digits + " " + unit + after;
    DigitsEnd(digits, " " + unit + after);
    assert s == digits + (" " + unit + after);
    var rest := s[|digits|..];
    assert rest == " " + unit + after;
    assert rest[..|unit| + 1] == " " + unit;
    assert rest[|unit| + 1..] == after;
    assert s[..|digits|] == digits;
  }

  lemma GroupReads(digits: string, unit: string, plural: bool, tail: string)
    requires digits != "" && AllDigits(digits) && (tail == "" || tail[0] == ' ')
    ensures Group(Part(digits, unit, plural) + tail, unit) == (Some(Number(digits)), tail)
  {
    hide Group, Number, AllDigits;
    var after := (if plural then "s" else "") + tail;
    assert Part(digits, unit, plural) + tail == digits + " " + unit + after;
    assert plural ==> after[..1] == "s" && after[1..] == tail;
    assert !plural ==> after == tail && !StartsWith(tail, "s");
    GroupOfText(digits, unit, after);
  }

  lemma {:induction false} DigitsEnd(digits: string, rest: string)
    requires AllDigits(digits) && rest != "" && !IsDigit(rest[0])
    ensures DigitCount(digits + rest) == |digits|
  {
    if digits == "" {
      assert digits + rest == rest;
    } else {
      assert (digits + rest)[1..] == digits[1..] + rest;
      DigitsEnd(digits[1..], rest);
    }
  }

  lemma DifferentStart(s: string, prefix: string)
    requires |s| > 1 && |prefix| > 1 && s[1] != prefix[1]
    ensures !StartsWith(s, prefix)
  {
    assert |prefix| <= |s| ==> s[..|prefix|][1] == s[1];
  }

  /** The text is empty, or a number with a unit that starts with one of the letters. */
  ghost predicate StartsWithUnit(t: string, letters: set<char>) {
    t == "" || exists digits, name ::
      t == digits + " " + name && digits != "" && AllDigits(digits) && name != "" && name[0] in letters
  }

  /** A group of another unit is skipped. */
  lemma GroupSkips(t: string, letters: set<char>, unit: string)
    requires StartsWithUnit(t, letters) && unit != "" && unit[0] !in letters
    ensures Group(t, unit) == (None, t) && SkipSpace(t) == t
  {
    if t != "" {
      var digits, name :|
        t == digits + " " + name && digits != "" && AllDigits(digits) && name != "" && name[0] in letters;
      AfterDigits(digits, name);
      assert IsDigit(digits[0]) && t[0] == digits[0];
      hide AllDigits, DigitCount;
      DifferentStart(" " + name, " " + unit);
    }
  }

  lemma AfterDigits(digits: string, name: string)
    requires AllDigits(digits)
    ensures var t := digits + " " + name; DigitCount(t) == |digits| && t[|digits|..] == " " + name
  {
    DigitsEnd(digits, " " + name);
    assert digits + " " + name == digits + (" " + name);
  }

  /** One group: it reads its part if that is there, and leaves the later ones. */
  lemma ReadsPart(digits: string, unit: string, plural: bool, later: string, letters: set<char>)
    requires AllDigits(digits) && unit != "" && unit[0] !in letters && StartsWithUnit(later, letters)
    ensures var r := Group(Spaced(Part(digits, unit, plural), later), unit);
            && OrZero(r.0) == Number(digits)
            && SkipSpace(r.1) == later && (later == "" ==> r.1 == "")
    ensures StartsWithUnit(Spaced(Part(digits, unit, plural), later), letters + {unit[0]})
  {
    assert Number("") == 0;
    if digits == "" {
      hide Number, Group, StartsWithUnit, SkipSpace;
      GroupSkips(later, letters, unit);
      UnitOfMore(later, letters, unit[0]);
    } else {
      hide *;
      var tail := if later == "" then "" else " " + later;
      SpacedPart(digits, unit, plural, later);
      GroupReads(digits, unit, plural, tail);
      GroupSkips(later, letters, unit);
      TailIsSkipped(later);
      StartsOwnUnit(digits, unit, plural, tail, letters + {unit[0]});
      assert OrZero(Some(Number(digits))) == Number(digits) by {
        OrZeroOfSome(Number(digits));
      }
    }
  }

  lemma OrZeroOfSome(n: nat)
    ensures OrZero(Some(n)) == n
  {
  }

  lemma SpacedPart(digits: string, unit: string, plural: bool, later: string)
    requires digits != ""
    ensures Spaced(Part(digits, unit, plural), later)
         == Part(digits, unit, plural) + if later == "" then "" else " " + later
  {
  }

  lemma TailIsSkipped(later: string)
    requires SkipSpace(later) == later
    ensures SkipSpace(if later == "" then "" else " " + later) == later
  {
  }

  lemma StartsOwnUnit(digits: string, unit: string, plural: bool, tail: string, letters: set<char>)
    requires digits != "" && AllDigits(digits) && unit != "" && unit[0] in letters
    ensures StartsWithUnit(Part(digits, unit, plural) + tail, letters)
  {
    hide AllDigits;
    var name := unit + (if plural then "s" else "") + tail;
    assert Part(digits, unit, plural) + tail == digits + " " + name;
    assert name[0] == unit[0];
  }

  lemma UnitOfMore(t: string, letters: set<char>, letter: char)
    requires StartsWithUnit(t, letters)
    ensures StartsWithUnit(t, letters + {letter})
  {
  }

  /** Days, hours, minutes and seconds, each of them there or not, in the singular or the plural. */
  function UnitsText(d: string, h: string, m: string, sec: string, plural: seq<bool>): string
    requires |plural| == 4
  {
    Spaced(Part(d, "day", plural[0]),
           Spaced(Part(h, "hour", plural[1]),
                  Spaced(Part(m, "minute", plural[2]), Spaced(Part(sec, "second", plural[3]), ""))))
  }

  /** Parsing, group by group. */
  lemma ParsesInStages(s: string, r1: (Option<nat>, string), r2: (Option<nat>, string), r3: (Option<nat>, string),
                       r4: (Option<nat>, string))
    requires r1 == Group(s, "day") && r2 == Group(SkipSpace(r1.1), "hour")
    requires r3 == Group(SkipSpace(r2.1), "minute") && r4 == Group(SkipSpace(r3.1), "second")
    ensures ParseTimedelta(s)
         == if r4.1 != "" && r4.1 != "\n" then None
            else Some(FromSeconds(OrZero(r1.0) * 86400 + OrZero(r2.0) * 3600 + OrZero(r3.0) * 60 + OrZero(r4.0)))
  {
    hide Group, SkipSpace, Summed;
    SummedFour([r1.0, r2.0, r3.0, r4.0]);
  }

  /** Such a text is read as the sum of its parts. */
  lemma ReadsUnits(d: string, h: string, m: string, sec: string, plural: seq<bool>)
    requires |plural| == 4 && AllDigits(d) && AllDigits(h) && AllDigits(m) && AllDigits(sec)
    ensures ParseTimedelta(UnitsText(d, h, m, sec, plural))
         == Some(FromSeconds(Number(d) * 86400 + Number(h) * 3600 + Number(m) * 60 + Number(sec)))
  {
    hide *;
    var t4 := Spaced(Part(sec, "second", plural[3]), "");
    var t3 := Spaced(Part(m, "minute", plural[2]), t4);
    var t2 := Spaced(Part(h, "hour", plural[1]), t3);
    var t1 := Spaced(Part(d, "day", plural[0]), t2);
    UnitsInOrder(d, h, m, sec, plural);
    ReadsSecond(sec, plural[3]);
    ReadsMinute(m, plural[2], t4);
    ReadsHour(h, plural[1], t3);
    ReadsDay(d, plural[0], t2);
    ParsesInStages(t1, Group(t1, "day"), Group(t2, "hour"), Group(t3, "minute"), Group(t4, "second"));
  }

  lemma UnitsInOrder(d: string, h: string, m: string, sec: string, plural: seq<bool>)
    requires |plural| == 4
    ensures var t4 := Spaced(Part(sec, "second", plural[3]), "");
            var t3 := Spaced(Part(m, "minute", plural[2]), t4);
            var t2 := Spaced(Part(h, "hour", plural[1]), t3);
            UnitsText(d, h, m, sec, plural) == Spaced(Part(d, "day", plural[0]), t2)
  {
  }

  lemma ReadsSecond(sec: string, plural: bool)
    requires AllDigits(sec)
    ensures var t := Spaced(Part(sec, "second", plural), "");
            && OrZero(Group(t, "second").0) == Number(sec) && Group(t, "second").1 == ""
            && StartsWithUnit(t, {'s'})
  {
    hide Group, Number, AllDigits, Part, Spaced;
    NothingStarts();
    ReadsPart(sec, "second", plural, "", {});
    assert {} + {"second"[0]} == {'s'};
  }

  lemma ReadsMinute(m: string, plural: bool, later: string)
    requires AllDigits(m) && StartsWithUnit(later, {'s'})
    ensures var t := Spaced(Part(m, "minute", plural), later);
            && OrZero(Group(t, "minute").0) == Number(m) && SkipSpace(Group(t, "minute").1) == later
            && StartsWithUnit(t, {'s', 'm'})
  {
    hide Group, Number, AllDigits, Part, Spaced, StartsWithUnit, SkipSpace;
    ReadsPart(m, "minute", plural, later, {'s'});
    assert {'s'} + {"minute"[0]} == {'s', 'm'};
  }

  lemma ReadsHour(h: string, plural: bool, later: string)
    requires AllDigits(h) && StartsWithUnit(later, {'s', 'm'})
    ensures var t := Spaced(Part(h, "hour", plural), later);
            && OrZero(Group(t, "hour").0) == Number(h) && SkipSpace(Group(t, "hour").1) == later
            && StartsWithUnit(t, {'s', 'm', 'h'})
  {
    hide Group, Number, AllDigits, Part, Spaced, StartsWithUnit, SkipSpace;
    ReadsPart(h, "hour", plural, later, {'s', 'm'});
    assert {'s', 'm'} + {"hour"[0]} == {'s', 'm', 'h'};
  }

  lemma ReadsDay(d: string, plural: bool, later: string)
    requires AllDigits(d) && StartsWithUnit(later, {'s', 'm', 'h'})
    ensures var t := Spaced(Part(d, "day", plural), later);
            OrZero(Group(t, "day").0) == Number(d) && SkipSpace(Group(t, "day").1) == later
  {
    hide Group, Number, AllDigits, Part, Spaced, StartsWithUnit, SkipSpace;
    ReadsPart(d, "day", plural, later, {'s', 'm', 'h'});
  }

  lemma NothingStarts()
    ensures StartsWithUnit("", {})
  {
  }

  /** What a group has read: a part, or nothing. */
  lemma GroupWasPart(s: string, unit: string) returns (digits: string, plural: bool)
    ensures AllDigits(digits) && OrZero(Group(s, unit).0) == Number(digits)
    ensures s == Part(digits, unit, plural) + Group(s, unit).1
  {
    var n := DigitCount(s);
    if n > 0 && StartsWith(s[n..], " " + unit) {
      digits, plural := s[..n], StartsWith(s[n..][|unit| + 1..], "s");
      hide DigitCount, Number, StartsWith, AllDigits;
      PartSplits(s, n, unit, plural);
    } else {
      digits, plural := "", false;
      hide DigitCount, StartsWith;
      assert Number("") == 0 && Part("", unit, false) + s == s;
    }
  }

  lemma PartSplits(s: string, n: nat, unit: string, plural: bool)
    requires 0 < n <= |s| && StartsWith(s[n..], " " + unit)
    requires plural == StartsWith(s[n..][|unit| + 1..], "s")
    ensures var after := s[n..][|unit| + 1..];
            s == Part(s[..n], unit, plural) + if plural then after[1..] else after
  {
    var after := s[n..][|unit| + 1..];
    assert s[n..] == " " + unit + after;
    assert plural ==> after == "s" + after[1..];
    hide StartsWith;
    assert s == s[..n] + (" " + unit + after);
  }

  /** Nothing, or one white-space character. */
  ghost predicate IsGap(gap: string) { gap == "" || (|gap| == 1 && IsSpace(gap[0])) }

  lemma SkipWasGap(s: string) returns (gap: string)
    ensures IsGap(gap) && s == gap + SkipSpace(s)
  {
    gap := if s != "" && IsSpace(s[0]) then s[..1] else "";
  }

  /** What a text consists of: the digits of each part, which parts are plural, the gaps and the end. */
  datatype Pieces = Pieces(digits: seq<string>, plural: seq<bool>, gaps: seq<string>, end: string)

  ghost predicate AreUnits(u: Pieces) {
    && |u.digits| == 4 && |u.plural| == 4 && |u.gaps| == 3
    && (forall i :: 0 <= i < 4 ==> AllDigits(u.digits[i]))
    && (forall i :: 0 <= i < 3 ==> IsGap(u.gaps[i]))
    && (u.end == "" || u.end == "\n")
  }

  /** The pieces from left to right. */
  ghost function TextOf(u: Pieces): string
    requires AreUnits(u)
  {
    Part(u.digits[0], "day", u.plural[0]) + (u.gaps[0] + (
    Part(u.digits[1], "hour", u.plural[1]) + (u.gaps[1] + (
    Part(u.digits[2], "minute", u.plural[2]) + (u.gaps[2] + (
    Part(u.digits[3], "second", u.plural[3]) + u.end))))))
  }

  /** A text that is read consists of parts in this order, and is read as their sum. */
  lemma TextWasUnits(s: string) returns (u: Pieces)
    requires ParseTimedelta(s).Some?
    ensures AreUnits(u) && s == TextOf(u)
    ensures ParseTimedelta(s)
         == Some(FromSeconds(Number(u.digits[0]) * 86400 + Number(u.digits[1]) * 3600
                             + Number(u.digits[2]) * 60 + Number(u.digits[3])))
  {
    hide Group, SkipSpace, Part, Number, Summed, OrZero, AllDigits, IsGap;
    var r1 := Group(s, "day");
    var d, p1 := GroupWasPart(s, "day");
    var g1 := SkipWasGap(r1.1);
    var r2 := Group(SkipSpace(r1.1), "hour");
    var h, p2 := GroupWasPart(SkipSpace(r1.1), "hour");
    var g2 := SkipWasGap(r2.1);
    var r3 := Group(SkipSpace(r2.1), "minute");
    var m, p3 := GroupWasPart(SkipSpace(r2.1), "minute");
    var g3 := SkipWasGap(r3.1);
    var r4 := Group(SkipSpace(r3.1), "second");
    var sec, p4 := GroupWasPart(SkipSpace(r3.1), "second");
    u := Pieces([d, h, m, sec], [p1, p2, p3, p4], [g1, g2, g3], r4.1);
    ParsesInStages(s, r1, r2, r3, r4);
  }

  /** The digits printed for a number, if it is positive. */
  function Printed(n: int): (digits: string)
    ensures AllDigits(digits) && Number(digits) == if n > 0 then n else 0
  {
    if n > 0 then (NumberOfDecimal(n); Decimal(n)) else ""
  }

  /** A timedelta is printed as its days and its seconds, in the plural. */
  lemma PrintsUnits(d: Delta)
    ensures PrintTimedelta(d) == UnitsText(Printed(d.days), "", "", Printed(d.seconds), [true, true, true, true])
  {
    hide Decimal;
    var days, seconds := Part(Printed(d.days), "day", true), Part(Printed(d.seconds), "second", true);
    if d.days > 0 {
      assert Decimal(d.days) + " " + "day" + "s" == Decimal(d.days) + " " + "days";
    }
    if d.seconds > 0 {
      assert Decimal(d.seconds) + " " + "second" + "s" == Decimal(d.seconds) + " " + "seconds";
    }
    assert Items(d.days, "days") == if d.days > 0 then [days] else [];
    assert Items(d.seconds, "seconds") == if d.seconds > 0 then [seconds] else [];
    hide Items, Part;
    JoinTwo(days, seconds);
  }

  lemma JoinTwo(a: string, b: string)
    ensures Join([a, b]) == a + " " + b && Join([a]) == a && Join([]) == ""
  {
    assert [a, b][1..] == [b];
  }

  /** What is read back: days that are not negative, the seconds, no microseconds. */
  lemma TimedeltaReadsBack(d: Delta)
    requires Normal(d)
    ensures ParseTimedelta(PrintTimedelta(d)) == Some(Delta(if d.days > 0 then d.days else 0, d.seconds, 0))
  {
    hide ParseTimedelta, PrintTimedelta, UnitsText;
    assert Number("") == 0;
    PrintsUnits(d);
    ReadsUnits(Printed(d.days), "", "", Printed(d.seconds), [true, true, true, true]);
  }

  /** The text of a Timedelta reads back exactly when it is not negative and has whole seconds. */
  lemma TimedeltaRoundTrip(d: Delta)
    requires Normal(d)
    ensures ParseTimedelta(PrintTimedelta(d)) == Some(d) <==> d.days >= 0 && d.micros == 0
  {
    TimedeltaReadsBack(d);
  }

  // ---- RelativeTime ----

  /** %02d for numbers below 100. */
  function Two(n: nat): (s: string)
    requires n < 100
    ensures |s| == 2 && AllDigits(s)
  {
    [Digit(n / 10), Digit(n % 10)]
  }

  function Signed(n: int): string { if n < 0 then "-" + Decimal(-n) else Decimal(n) }

  function Micros(n: nat): string
    requires n < 1_000_000
  {
    "." + Two(n / 10000) + Two(n / 100 % 100) + Two(n % 100)
  }

  /** str(timedelta) */
  function Str(d: Delta): string
    requires Normal(d)
  {
    (if d.days == 0 then ""
     else Signed(d.days) + " day" + (if d.days == 1 || d.days == -1 then "" else "s") + ", ")
    + Decimal(d.seconds / 3600) + ":" + Two(d.seconds / 60 % 60) + ":" + Two(d.seconds % 60)
    + (if d.micros == 0 then "" else Micros(d.micros))
  }

  /** timedelta_to_string */
  function Padded(s: string): string { if |s| == 7 then "0" + s else s }

  /** RelativeTime.to_json; None is the ValueError about more than 86400 seconds. */
  function RelativeToJson(d: Delta): Option<string>
    requires Normal(d)
  {
    if d == Delta(0, 0, 0) then Some("00:00:00")
    else if d.days > 1 || (d.days == 1 && (d.seconds > 0 || d.micros > 0)) then None
    else Some(Padded(Str(d)))
  }

  /** One number of strptime: one or two digits up to a limit; the rest of the string. */
  function Field(s: string, limit: nat): Option<(nat, string)> {
    var n := DigitCount(s);
    if (n == 1 || n == 2) && Number(s[..n]) <= limit then Some((Number(s[..n]), s[n..])) else None
  }

  /** %S and the end of the text; 60 and 61 seconds are accepted. */
  function ParseSeconds(s: string): Option<nat> {
    var sec := Field(s, 61);
    if sec.None? || sec.value.1 != "" then None else Some(sec.value.0)
  }

  /** %M:%S */
  function ParseMinutes(s: string): Option<nat> {
    var m := Field(s, 59);
    if m.None? || !StartsWith(m.value.1, ":") then None
    else
      var sec := ParseSeconds(m.value.1[1..]);
      if sec.None? then None else Some(m.value.0 * 60 + sec.value)
  }

  /** time.strptime(s, "%H:%M:%S") as a duration. */
  function ParseRelative(s: string): (r: Option<Delta>)
    ensures r.Some? ==> Normal(r.value)
  {
    var h := Field(s, 23);
    if h.None? || !StartsWith(h.value.1, ":") then None
    else
      var rest := ParseMinutes(h.value.1[1..]);
      if rest.None? then None else Some(FromSeconds(h.value.0 * 3600 + rest.value))
  }

  /** RelativeTime.from_json for a string. */
  function RelativeFromJson(s: string): (r: Option<Delta>)
    ensures r.Some? ==> Normal(r.value)
  {
    if s == "" then Some(Delta(0, 0, 0)) else ParseRelative(s)
  }

  /** HH:MM:SS */
  function Clock(h: nat, m: nat, sec: nat): string
    requires h < 100 && m < 100 && sec < 100
  {
    Two(h) + ":" + Two(m) + ":" + Two(sec)
  }

  /** One or two digits. */
  ghost predicate IsNumeral(digits: string) { AllDigits(digits) && 1 <= |digits| <= 2 }

  lemma FieldReads(digits: string, rest: string, limit: nat)
    requires IsNumeral(digits) && (rest == "" || !IsDigit(rest[0]))
    ensures Field(digits + rest, limit) == if Number(digits) <= limit then Some((Number(digits), rest)) else None
  {
    hide Number;
    if rest == "" {
      assert digits + rest == digits && digits[|digits|..] == "";
      AllCounted(digits);
    } else {
      DigitsEnd(digits, rest);
    }
    assert (digits + rest)[..|digits|] == digits && (digits + rest)[|digits|..] == rest;
  }

  /** What is read comes from a numeral. */
  lemma FieldWasNumeral(s: string, limit: nat) returns (digits: string)
    requires Field(s, limit).Some?
    ensures |digits| <= |s| && s == digits + s[|digits|..]
    ensures IsNumeral(digits) && Field(s, limit) == Some((Number(digits), s[|digits|..])) && Number(digits) <= limit
  {
    digits := s[..DigitCount(s)];
  }

  lemma {:induction false} AllCounted(digits: string)
    requires AllDigits(digits)
    ensures DigitCount(digits) == |digits|
  {
    if digits != "" {
      AllCounted(digits[1..]);
    }
  }

  lemma NumberOfTwo(n: nat)
    requires n < 100
    ensures Number(Two(n)) == n
  {
    assert Two(n)[..1] == [Digit(n / 10)] && [Digit(n / 10)][..0] == "";
    assert Number([Digit(n / 10)]) == n / 10;
  }

  lemma SecondsRead(sec: string, tail: string)
    requires IsNumeral(sec) && (tail == "" || !IsDigit(tail[0]))
    ensures ParseSeconds(sec + tail) == if tail == "" && Number(sec) <= 61 then Some(Number(sec)) else None
  {
    hide Field, Number;
    FieldReads(sec, tail, 61);
  }

  lemma MinutesRead(m: string, rest: string)
    requires IsNumeral(m) && Number(m) <= 59
    ensures ParseMinutes(m + (":" + rest))
         == if ParseSeconds(rest).None? then None else Some(Number(m) * 60 + ParseSeconds(rest).value)
  {
    hide Field, Number, ParseSeconds;
    assert (":" + rest)[1..] == rest && StartsWith(":" + rest, ":");
    FieldReads(m, ":" + rest, 59);
  }

  lemma HoursRead(h: string, rest: string)
    requires IsNumeral(h) && Number(h) <= 23
    ensures ParseRelative(h + (":" + rest))
         == if ParseMinutes(rest).None? then None
            else Some(FromSeconds(Number(h) * 3600 + ParseMinutes(rest).value))
  {
    hide Field, Number, ParseMinutes;
    assert (":" + rest)[1..] == rest && StartsWith(":" + rest, ":");
    FieldReads(h, ":" + rest, 23);
  }

  /** Three numerals within the limits of the format. */
  ghost predicate IsTime(h: string, m: string, sec: string) {
    && IsNumeral(h) && IsNumeral(m) && IsNumeral(sec)
    && Number(h) <= 23 && Number(m) <= 59 && Number(sec) <= 61
  }

  function Colons(h: string, m: string, sec: string): string { h + (":" + (m + (":" + sec))) }

  /** Reading a time and what follows it. */
  lemma TimeReads(h: string, m: string, sec: string, tail: string)
    requires IsTime(h, m, sec) && (tail == "" || !IsDigit(tail[0]))
    ensures ParseRelative(Colons(h, m, sec + tail))
         == if tail == "" then Some(FromSeconds(Number(h) * 3600 + Number(m) * 60 + Number(sec))) else None
  {
    hide ParseRelative, ParseMinutes, ParseSeconds, Number;
    HoursRead(h, m + (":" + (sec + tail)));
    MinutesRead(m, sec + tail);
    SecondsRead(sec, tail);
  }

  lemma MinutesWereTime(s: string) returns (m: string, sec: string)
    requires ParseMinutes(s).Some?
    ensures IsNumeral(m) && IsNumeral(sec) && Number(m) <= 59 && Number(sec) <= 61 && s == m + (":" + sec)
  {
    hide Field, Number, Digit, IsDigit, IsNumeral;
    m := FieldWasNumeral(s, 59);
    var rest := s[|m|..];
    sec := FieldWasNumeral(rest[1..], 61);
    assert rest == ":" + rest[1..] && sec + "" == sec;
  }

  lemma WasTime(s: string) returns (h: string, m: string, sec: string)
    requires ParseRelative(s).Some?
    ensures IsTime(h, m, sec) && s == Colons(h, m, sec)
  {
    hide Field, Number, ParseMinutes, IsDigit;
    h := FieldWasNumeral(s, 23);
    var rest := s[|h|..];
    m, sec := MinutesWereTime(rest[1..]);
    assert rest == ":" + rest[1..];
  }

  ghost predicate IsTimeText(s: string) {
    exists h, m, sec :: IsTime(h, m, sec) && s == Colons(h, m, sec)
  }

  /** A text is read exactly when it is empty or a time, and then as that many seconds. */
  lemma ParsesExactly(s: string)
    ensures RelativeFromJson(s).Some? <==> s == "" || IsTimeText(s)
    ensures s == "" ==> RelativeFromJson(s) == Some(Delta(0, 0, 0))
    ensures forall h, m, sec :: IsTime(h, m, sec) && s == Colons(h, m, sec) ==>
              RelativeFromJson(s) == Some(FromSeconds(Number(h) * 3600 + Number(m) * 60 + Number(sec)))
  {
    hide ParseRelative, FromSeconds, Number, Colons;
    if s != "" && ParseRelative(s).Some? {
      var h, m, sec := WasTime(s);
    }
    forall h, m, sec | IsTime(h, m, sec) && s == Colons(h, m, sec)
      ensures RelativeFromJson(s) == Some(FromSeconds(Number(h) * 3600 + Number(m) * 60 + Number(sec)))
    {
      TimeIsRead(h, m, sec);
    }
  }

  lemma TimeIsRead(h: string, m: string, sec: string)
    requires IsTime(h, m, sec)
    ensures RelativeFromJson(Colons(h, m, sec))
         == Some(FromSeconds(Number(h) * 3600 + Number(m) * 60 + Number(sec)))
  {
    hide ParseRelative, FromSeconds, Number;
    TimeReads(h, m, sec, "");
    assert sec + "" == sec;
  }

  lemma NumeralValue(digits: string)
    requires IsNumeral(digits)
    ensures Number(digits)
         == if |digits| == 1 then DigitValue(digits[0]) else 10 * DigitValue(digits[0]) + DigitValue(digits[1])
  {
    var n := |digits| - 1;
    assert digits[..n][..0] == "";
  }

  /** A numeral of a number with two digits. */
  lemma NumeralIsTwo(digits: string, n: nat)
    requires IsNumeral(digits) && Number(digits) == n && 10 <= n < 100
    ensures digits == Two(n)
  {
    hide Number;
    NumeralValue(digits);
  }

  lemma LastMinute(h: string, m: string, sec: string)
    requires IsTime(h, m, sec)
    ensures Number(h) * 3600 + Number(m) * 60 + Number(sec) >= 86400
       <==> Number(h) == 23 && Number(m) == 59 && Number(sec) >= 60
  {
  }

  /** The two texts that strptime reads as a leap second at the end of the day. */
  predicate IsLeapText(s: string) { s == "23:59:60" || s == "23:59:61" }

  lemma LeapTexts(s: string)
    ensures IsLeapText(s) <==> s == Clock(23, 59, 60) || s == Clock(23, 59, 61)
  {
    assert Two(23) == "23" && Two(59) == "59" && Two(60) == "60" && Two(61) == "61";
    assert Clock(23, 59, 60) == "23:59:60" && Clock(23, 59, 61) == "23:59:61";
  }

  lemma LastMinuteText(h: string, m: string, sec: string)
    requires IsTime(h, m, sec) && Number(h) == 23 && Number(m) == 59 && Number(sec) >= 60
    ensures IsLeapText(Colons(h, m, sec))
  {
    hide Number, Two, IsLeapText;
    NumeralIsTwo(h, 23);
    NumeralIsTwo(m, 59);
    NumeralIsTwo(sec, Number(sec));
    LeapTexts(Colons(h, m, sec));
    ClockIsColons(23, 59, Number(sec));
  }

  /** The maximum of 23:59:59 is exceeded by exactly two texts. */
  lemma BeyondMaximum(s: string)
    requires RelativeFromJson(s).Some?
    ensures RelativeFromJson(s).value.days >= 1 <==> s == "23:59:60" || s == "23:59:61"
  {
    assert IsLeapText(s) == (s == "23:59:60" || s == "23:59:61");
    hide RelativeFromJson, Number, Colons, Clock, IsLeapText;
    if IsLeapText(s) {
      LeapTexts(s);
      ParsesClock(23, 59, if s == Clock(23, 59, 60) then 60 else 61);
    } else if s == "" {
      assert RelativeFromJson("") == Some(Delta(0, 0, 0)) by {
        EmptyIsZero();
      }
    } else {
      ParsesExactly(s);
      var h, m, sec :| IsTime(h, m, sec) && s == Colons(h, m, sec);
      LastMinute(h, m, sec);
      if Number(h) == 23 && Number(m) == 59 && Number(sec) >= 60 {
        LastMinuteText(h, m, sec);
      }
    }
  }

  lemma EmptyIsZero()
    ensures RelativeFromJson("") == Some(Delta(0, 0, 0))
  {
  }

  lemma DecimalHour(h: nat)
    requires h < 24
    ensures Number(Decimal(h)) == h && |Decimal(h)| == if h < 10 then 1 else 2
    ensures h >= 10 ==> Decimal(h) == Two(h)
    ensures h < 10 ==> "0" + Decimal(h) == Two(h)
  {
    NumberOfDecimal(h);
    if h >= 10 {
      assert Decimal(h / 10) == [Digit(h / 10)];
    }
  }

  /** A time of day is printed as two digits each. */
  lemma PrintsClock(d: Delta)
    requires Normal(d) && d.days == 0 && d.micros == 0
    ensures RelativeToJson(d) == Some(Clock(d.seconds / 3600, d.seconds / 60 % 60, d.seconds % 60))
  {
    var h, m, sec := d.seconds / 3600, d.seconds / 60 % 60, d.seconds % 60;
    DecimalHour(h);
    if d.seconds == 0 {
      assert Clock(0, 0, 0) == "00:00:00";
    } else {
      var s := Decimal(h) + ":" + Two(m) + ":" + Two(sec);
      assert Str(d) == s;
      assert |s| == |Decimal(h)| + 6;
      assert h < 10 ==> "0" + s == ("0" + Decimal(h)) + ":" + Two(m) + ":" + Two(sec);
    }
  }

  lemma ClockIsColons(h: nat, m: nat, sec: nat)
    requires h < 100 && m < 100 && sec < 100
    ensures Clock(h, m, sec) == Colons(Two(h), Two(m), Two(sec))
  {
    hide Two;
  }

  lemma ParsesClock(h: nat, m: nat, sec: nat)
    requires h < 24 && m < 60 && sec < 62
    ensures RelativeFromJson(Clock(h, m, sec)) == Some(FromSeconds(h * 3600 + m * 60 + sec))
  {
    hide RelativeFromJson, Clock, Colons, FromSeconds, Two, Number;
    NumberOfTwo(h);
    NumberOfTwo(m);
    NumberOfTwo(sec);
    ClockIsColons(h, m, sec);
    TimeIsRead(Two(h), Two(m), Two(sec));
  }

  lemma NoHours(s: string)
    requires |s| > 1 && (!IsDigit(s[0]) || (!IsDigit(s[1]) && s[1] != ':'))
    ensures ParseRelative(s) == None
  {
    if IsDigit(s[0]) {
      assert s[1..][0] == s[1];
      assert DigitCount(s[1..]) == 0 && DigitCount(s) == 1;
      hide ParseMinutes, Number;
      assert s[1..][..1] == [s[1]];
    }
  }

  /** A time of day with microseconds. */
  lemma WithMicros(d: Delta)
    requires Normal(d) && d.days == 0 && d.micros != 0
    ensures |Str(d)| > 8 && ParseRelative(Str(d)) == None
  {
    hide ParseRelative, Decimal, Two, Number, Colons, Str;
    var h, m, sec := d.seconds / 3600, d.seconds / 60 % 60, d.seconds % 60;
    StrWithMicros(d);
    DecimalHour(h);
    NumberOfTwo(m);
    NumberOfTwo(sec);
    TimeReads(Decimal(h), Two(m), Two(sec), Micros(d.micros));
  }

  lemma StrWithMicros(d: Delta)
    requires Normal(d) && d.days == 0 && d.micros != 0
    ensures Str(d)
         == Colons(Decimal(d.seconds / 3600), Two(d.seconds / 60 % 60), Two(d.seconds % 60) + Micros(d.micros))
    ensures |Str(d)| > 8 && Micros(d.micros)[0] == '.' && !IsDigit('.')
  {
    hide Two, Decimal;
  }

  /** Anything but a time of day in whole seconds does not read back. */
  lemma OthersDoNotReadBack(d: Delta)
    requires Normal(d) && (d.days != 0 || d.micros != 0) && RelativeToJson(d).Some?
    ensures RelativeFromJson(RelativeToJson(d).value) == None
  {
    hide ParseRelative, Str;
    if d.days == 0 {
      WithMicros(d);
    } else if d.days < 0 {
      NegativeText(d);
    } else {
      OneDay();
    }
  }

  lemma NegativeText(d: Delta)
    requires Normal(d) && d.days < 0
    ensures |Str(d)| > 7 && ParseRelative(Str(d)) == None
  {
    hide Two, Decimal, Micros, ParseRelative;
    assert Str(d)[0] == '-';
    NoHours(Str(d));
  }

  /** Exactly one day is printed in words. */
  lemma OneDay()
    ensures RelativeToJson(Delta(1, 0, 0)) == Some("1 day, 0:00:00")
    ensures RelativeFromJson("1 day, 0:00:00") == None
  {
    hide ParseRelative, DigitCount;
    assert Str(Delta(1, 0, 0)) == "1 day, 0:00:00" by {
      assert Two(0) == "00" && Decimal(0) == "0" && Signed(1) == "1";
    }
    hide Str;
    NoHours("1 day, 0:00:00");
  }

  /** Printing raises exactly for more than 86400 seconds. */
  lemma PrintingRaises(d: Delta)
    requires Normal(d)
    ensures RelativeToJson(d).None? <==> (d.days * 86400 + d.seconds) * 1_000_000 + d.micros > 86400 * 1_000_000
  {
    hide Str;
  }

  lemma Recompose(n: nat)
    ensures n / 3600 * 3600 + n / 60 % 60 * 60 + n % 60 == n
  {
  }

  /** A RelativeTime reads back exactly when it is a whole number of seconds below 86400. */
  lemma RelativeRoundTrip(d: Delta)
    requires Normal(d)
    ensures (RelativeToJson(d).Some? && RelativeFromJson(RelativeToJson(d).value) == Some(d))
       <==> d.days == 0 && d.micros == 0
  {
    hide RelativeToJson, RelativeFromJson, Clock;
    if d.days == 0 && d.micros == 0 {
      PrintsClock(d);
      ParsesClock(d.seconds / 3600, d.seconds / 60 % 60, d.seconds % 60);
      Recompose(d.seconds);
    } else if RelativeToJson(d).Some? {
      OthersDoNotReadBack(d);
    }
  }

  /** A text as the editor writes it: two digits each, up to 23:59:59. */
  ghost predicate IsCanonical(s: string) {
    exists h: nat, m: nat, sec: nat :: h < 24 && m < 60 && sec < 60 && s == Clock(h, m, sec)
  }

  lemma ClockOfSum(h: nat, m: nat, sec: nat)
    requires h < 24 && m < 60 && sec < 60
    ensures var total := h * 3600 + m * 60 + sec;
            total < 86400 && total / 3600 == h && total / 60 % 60 == m && total % 60 == sec
  {
  }

  /** Reading and printing gives the text back exactly when it is canonical. */
  lemma TextRoundTrip(s: string)
    ensures (RelativeFromJson(s).Some? && RelativeToJson(RelativeFromJson(s).value) == Some(s)) <==> IsCanonical(s)
  {
    hide RelativeToJson, RelativeFromJson, Clock;
    if IsCanonical(s) {
      var h: nat, m: nat, sec: nat :| h < 24 && m < 60 && sec < 60 && s == Clock(h, m, sec);
      ParsesClock(h, m, sec);
      ClockOfSum(h, m, sec);
      PrintsClock(FromSeconds(h * 3600 + m * 60 + sec));
    }
    if RelativeFromJson(s).Some? && RelativeToJson(RelativeFromJson(s).value) == Some(s) {
      var d := RelativeFromJson(s).value;
      if d.days == 0 && d.micros == 0 {
        PrintsClock(d);
      } else {
        OthersDoNotReadBack(d);
      }
    }
  }
}
