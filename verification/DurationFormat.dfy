/** Printing durations as days, hours, minutes, seconds and one sub-second part. */
module DurationFormat {
  import opened Division

  /** Division and remainder that truncate toward zero. */
  function Div(v: int, n: int): int
    requires n > 0
  {
    if v >= 0 then v / n else -(-v / n)
  }

  function Rem(v: int, n: int): (r: int)
    requires n > 0
    ensures v == Div(v, n) * n + r
  {
    if v >= 0 then v % n else -(-v % n)
  }

  /** The resolution of a duration. */
  datatype Resolution = Nanoseconds | Microseconds | Milliseconds {
    /** How many units make a second. */
    function Second(): int {
      match this
      case Nanoseconds => 1_000_000_000
      case Microseconds => 1_000_000
      case Milliseconds => 1_000
    }

    /** The sizes of days, hours, minutes and seconds. */
    function Size(i: nat): (s: int)
      requires i < 4
      ensures s > 0
    {
      (if i == 0 then 86_400 else if i == 1 then 3_600 else if i == 2 then 60 else 1) * Second()
    }

    function BaseName(): string {
      match this
      case Nanoseconds => "ns"
      case Microseconds => "\U{B5}s"
      case Milliseconds => "ms"
    }
  }

  const NAMES: seq<string> := ["d", "h", "m", "s"]

  /** One printed part: a number and the name and size of its unit. */
  datatype Part = Part(count: int, name: string, size: int)

  function Digits(n: nat): string {
    if n < 10 then [('0' as int + n) as char] else Digits(n / 10) + [('0' as int + n % 10) as char]
  }

  function Show(p: Part): string {
    (if p.count < 0 then "-" + Digits(-p.count) else Digits(p.count)) + p.name
  }

  /** What is left of `v` in front of unit `i`. */
  function Left(r: Resolution, v: int, i: nat): int
    requires i <= 4
  {
    if i == 0 then v else Rem(v, r.Size(i - 1))
  }

  /** The number printed for unit `i`. */
  function Whole(r: Resolution, v: int, i: nat): int
    requires i < 4
  {
    Div(Left(r, v, i), r.Size(i))
  }

  /** The sub-second part, in the largest unit that expresses it exactly. */
  function SubSecond(r: Resolution, v: int): seq<Part> {
    var second := r.Second();
    if Rem(v, 1_000) != 0 then [Part(Rem(v, second), r.BaseName(), 1)]
    else if r.Milliseconds? then []
    else if Rem(v, 1_000_000) != 0 then
      [Part(Div(Rem(v, second), 1_000), if r.Nanoseconds? then Microseconds.BaseName() else Milliseconds.BaseName(), 1_000)]
    else if r.Microseconds? then []
    else if Rem(v, 1_000_000_000) != 0 then
      [Part(Div(Rem(v, second), 1_000_000), Milliseconds.BaseName(), 1_000_000)]
    else []
  }

  /** The parts from unit `i` on; zero parts are left out. */
  function Parts(r: Resolution, v: int, i: nat): seq<Part>
    requires i <= 4
    decreases 4 - i
  {
    if i == 4 then SubSecond(r, v)
    else
      var rest := Parts(r, v, i + 1);
      if Whole(r, v, i) == 0 then rest else [Part(Whole(r, v, i), NAMES[i], r.Size(i))] + rest
  }

  /** Parts separated by single spaces, with none in front or behind. */
  function Join(parts: seq<Part>): string {
    if parts == [] then ""
    else if |parts| == 1 then Show(parts[0])
    else Show(parts[0]) + " " + Join(parts[1..])
  }

  function Value(parts: seq<Part>): int {
    if parts == [] then 0 else parts[0].count * parts[0].size + Value(parts[1..])
  }

  /** Every part has the sign of the whole and is not zero. */
  ghost predicate SameSign(parts: seq<Part>, v: int) {
    forall k :: 0 <= k < |parts| ==> if v > 0 then parts[k].count > 0 else if v < 0 then parts[k].count < 0 else false
  }

  // Remainders.

  lemma NestedMod(v: int, m: int, b: int, n: int)
    requires m > 0 && b > 0 && v >= 0 && n == m * b
    ensures n > 0 && (v % n) % b == v % b
  {
    var q := v / n;
    assert v % n == v + (-(q * m)) * b by {
      assert v == q * n + v % n;
      assert q * n == (q * m) * b;
    }
    ModShift(v, b, -(q * m));
  }

  /** A remainder by a multiple does not change the remainder by the unit. */
  lemma NestedRem(v: int, m: int, b: int, n: int)
    requires m > 0 && b > 0 && n == m * b
    ensures n > 0 && Rem(Rem(v, n), b) == Rem(v, b)
  {
    NestedMod(if v >= 0 then v else -v, m, b, n);
  }

  /** Signs of quotient and remainder follow the dividend. */
  lemma Signs(v: int, n: int)
    requires n > 0
    ensures v >= 0 ==> Div(v, n) >= 0 && 0 <= Rem(v, n) < n
    ensures v <= 0 ==> Div(v, n) <= 0 && -n < Rem(v, n) <= 0
  {
  }

  // What the parts mean.

  /** A sub-second part in a unit that divides the rest exactly. */
  lemma ExactPart(v: int, second: int, unit: int, m: int)
    requires unit > 0 && m > 0 && second == m * unit && Rem(v, unit) == 0
    ensures second > 0 && Div(Rem(v, second), unit) * unit == Rem(v, second)
  {
    NestedRem(v, m, unit, second);
  }

  /** A part is zero only if everything coarser divides the duration. */
  lemma NonZeroRem(v: int, second: int, unit: int, m: int)
    requires unit > 0 && m > 0 && second == m * unit && Rem(v, unit) != 0
    ensures second > 0 && Rem(v, second) != 0
  {
    NestedRem(v, m, unit, second);
  }

  lemma OnePart(p: Part)
    ensures Value([p]) == p.count * p.size
  {
    assert [p][1..] == [];
  }

  lemma FinestPart(r: Resolution, v: int)
    requires Rem(v, 1_000) != 0
    ensures Value(SubSecond(r, v)) == Rem(v, r.Second()) && SameSign(SubSecond(r, v), v)
  {
    hide Div, Rem;
    NonZeroRem(v, r.Second(), 1_000, r.Second() / 1_000);
    Signs(v, r.Second());
    Signs(v, 1_000);
    OnePart(SubSecond(r, v)[0]);
  }

  lemma CoarserPart(r: Resolution, v: int, unit: int, next: int)
    requires !r.Milliseconds? && unit in {1_000, 1_000_000} && next == 1_000 * unit && next <= r.Second()
    requires Rem(v, unit) == 0 && Rem(v, next) != 0
    ensures var count := Div(Rem(v, r.Second()), unit);
            count * unit == Rem(v, r.Second()) && (v > 0 ==> count > 0) && (v < 0 ==> count < 0) && v != 0
  {
    hide Div, Rem;
    ExactPart(v, r.Second(), unit, r.Second() / unit);
    NonZeroRem(v, r.Second(), next, r.Second() / next);
    Signs(v, r.Second());
    Signs(v, next);
    Signs(Rem(v, r.Second()), unit);
  }

  lemma SubSecondValue(r: Resolution, v: int)
    ensures Value(SubSecond(r, v)) == Rem(v, r.Second())
    ensures SameSign(SubSecond(r, v), v)
  {
    hide Div, Rem;
    if Rem(v, 1_000) != 0 {
      FinestPart(r, v);
    } else if !r.Milliseconds? && Rem(v, 1_000_000) != 0 {
      CoarserPart(r, v, 1_000, 1_000_000);
      OnePart(SubSecond(r, v)[0]);
    } else if r.Nanoseconds? && Rem(v, 1_000_000_000) != 0 {
      CoarserPart(r, v, 1_000_000, 1_000_000_000);
      OnePart(SubSecond(r, v)[0]);
    }
  }

  lemma LeftSplits(r: Resolution, v: int, i: nat)
    requires i < 4
    ensures Left(r, v, i) == Whole(r, v, i) * r.Size(i) + Left(r, v, i + 1)
  {
    hide Div, Rem;
    if i > 0 {
      var m := if i == 1 then 24 else 60;
      NestedRem(v, m, r.Size(i), r.Size(i - 1));
    }
  }

  lemma WholeSign(r: Resolution, v: int, i: nat)
    requires i < 4
    ensures v >= 0 ==> Whole(r, v, i) >= 0
    ensures v <= 0 ==> Whole(r, v, i) <= 0
  {
    hide Div, Rem;
    if i > 0 {
      Signs(v, r.Size(i - 1));
    }
    Signs(Left(r, v, i), r.Size(i));
  }

  /** The parts from a unit on add up to what is left, and share the sign of the duration. */
  lemma {:induction false} PartsValue(r: Resolution, v: int, i: nat)
    requires i <= 4 && v != 0
    ensures Value(Parts(r, v, i)) == Left(r, v, i)
    ensures SameSign(Parts(r, v, i), v)
    decreases 4 - i
  {
    hide Div, Rem, Resolution.Size, SubSecond;
    if i == 4 {
      SubSecondValue(r, v);
      LastSize(r);
    } else {
      PartsValue(r, v, i + 1);
      LeftSplits(r, v, i);
      WholeSign(r, v, i);
      hide Left, Whole;
      if Whole(r, v, i) != 0 {
        var p := Part(Whole(r, v, i), NAMES[i], r.Size(i));
        assert Parts(r, v, i)[1..] == Parts(r, v, i + 1);
      }
    }
  }

  lemma LastSize(r: Resolution)
    ensures r.Size(3) == r.Second()
  {
  }

  lemma {:induction false} ValueSign(parts: seq<Part>, v: int)
    requires SameSign(parts, v) && forall k :: 0 <= k < |parts| ==> parts[k].size > 0
    ensures parts != [] ==> Value(parts) != 0
    ensures v >= 0 ==> Value(parts) >= 0
    ensures v <= 0 ==> Value(parts) <= 0
  {
    if parts != [] {
      ValueSign(parts[1..], v);
      Product(parts[0].count, parts[0].size);
    }
  }

  lemma Product(a: int, b: int)
    requires b > 0
    ensures a > 0 ==> a * b > 0
    ensures a < 0 ==> a * b < 0
  {
  }

  lemma {:induction false} PartsSizes(r: Resolution, v: int, i: nat)
    requires i <= 4
    ensures forall k :: 0 <= k < |Parts(r, v, i)| ==> Parts(r, v, i)[k].size > 0
    decreases 4 - i
  {
    hide Div, Rem, Resolution.Size;
    if i < 4 {
      PartsSizes(r, v, i + 1);
    }
  }

  /** More parts follow exactly when something is left. */
  lemma MoreParts(r: Resolution, v: int, i: nat)
    requires i <= 4 && v != 0
    ensures Parts(r, v, i) == [] <==> Left(r, v, i) == 0
  {
    hide Div, Rem, Resolution.Size, Left;
    PartsValue(r, v, i);
    PartsSizes(r, v, i);
    ValueSign(Parts(r, v, i), v);
  }

  /** The printed parts of a duration add up to it exactly, all with its sign. */
  lemma Denotes(r: Resolution, v: int)
    requires v != 0
    ensures Value(Parts(r, v, 0)) == v
    ensures SameSign(Parts(r, v, 0), v)
    ensures Parts(r, v, 0) != []
  {
    PartsValue(r, v, 0);
    MoreParts(r, v, 0);
  }

  lemma JoinCons(p: Part, rest: seq<Part>)
    ensures Join([p] + rest) == Show(p) + (if rest == [] then "" else " " + Join(rest))
  {
    assert ([p] + rest)[1..] == rest;
    if rest != [] {
      assert Show(p) + " " + Join(rest) == Show(p) + (" " + Join(rest));
    }
  }

  /** One round of the loop: the part of unit `i`, and a space if more parts follow. */
  method WritePart(out: string, r: Resolution, v: int, i: nat) returns (next: string)
    requires v != 0 && i < 4
    ensures next + Join(Parts(r, v, i + 1)) == out + Join(Parts(r, v, i))
  {
    hide Div, Rem, Left, Resolution.Size;
    var whole := Whole(r, v, i);
    next := out;
    if whole <= -1 || whole >= 1 {
      var p := Part(whole, NAMES[i], r.Size(i));
      assert Parts(r, v, i) == [p] + Parts(r, v, i + 1);
      hide Parts, Join, Show;
      MoreParts(r, v, i + 1);
      PartWritten(out, p, Parts(r, v, i + 1));
      next := next + Show(p);
      if Left(r, v, i + 1) != 0 {
        next := next + " ";
      }
    }
  }

  lemma PartWritten(out: string, p: Part, rest: seq<Part>)
    ensures rest != [] ==> out + Show(p) + " " + Join(rest) == out + Join([p] + rest)
    ensures rest == [] ==> out + Show(p) + Join(rest) == out + Join([p] + rest)
  {
    JoinCons(p, rest);
    if rest != [] {
      assert out + Show(p) + " " + Join(rest) == out + (Show(p) + (" " + Join(rest)));
    }
  }

  /** `format_duration`: the loop over the whole units. */
  method FormatDuration(r: Resolution, v: int) returns (out: string)
    requires v != 0
    ensures out + Join(Parts(r, v, 4)) == Join(Parts(r, v, 0))
  {
    hide Parts, Join;
    out := "";
    assert out + Join(Parts(r, v, 0)) == Join(Parts(r, v, 0));
    for i := 0 to 4
      invariant out + Join(Parts(r, v, i)) == Join(Parts(r, v, 0))
    {
      out := WritePart(out, r, v, i);
    }
  }

  /** `fmt_duration_ns`, `fmt_duration_us`, `fmt_duration_ms`. */
  method FormatAny(r: Resolution, v: int) returns (out: string)
    ensures out == if v == 0 then "0" + r.BaseName() else Join(Parts(r, v, 0))
  {
    if v == 0 {
      return "0" + r.BaseName();
    }
    out := FormatDuration(r, v);
    var sub := SubSecond(r, v);
    if sub != [] {
      out := out + Show(sub[0]);
    }
  }

  // Reading a printed duration.

  predicate IsDigit(c: char) {
    '0' <= c <= '9'
  }

  predicate Numeric(s: string) {
    forall i :: 0 <= i < |s| ==> IsDigit(s[i])
  }

  function ReadDigits(s: string): nat
    requires Numeric(s)
  {
    if s == "" then 0 else 10 * ReadDigits(s[..|s| - 1]) + (s[|s| - 1] as int - '0' as int)
  }

  lemma {:induction false} DigitsRead(n: nat)
    ensures Digits(n) != "" && Numeric(Digits(n)) && ReadDigits(Digits(n)) == n
    ensures |Digits(n)| > 1 ==> Digits(n)[0] != '0'
  {
    if n < 10 {
      assert Digits(n)[..0] == "";
    } else {
      DigitsRead(n / 10);
      assert Digits(n)[..|Digits(n)| - 1] == Digits(n / 10);
      assert Digits(n)[0] == Digits(n / 10)[0];
    }
  }

  /** The leading digits of a string. */
  function Leading(s: string): (k: nat)
    ensures k <= |s| && Numeric(s[..k])
    ensures k < |s| ==> !IsDigit(s[k])
  {
    if s == "" || !IsDigit(s[0]) then 0
    else
      var k := 1 + Leading(s[1..]);
      assert s[..k] == [s[0]] + s[1..][..k - 1];
      k
  }

  lemma {:induction false} LeadingDigits(d: string, name: string)
    requires Numeric(d) && name != "" && !IsDigit(name[0])
    ensures Leading(d + name) == |d|
  {
    if d == "" {
      assert d + name == name;
    } else {
      assert (d + name)[1..] == d[1..] + name;
      LeadingDigits(d[1..], name);
    }
  }

  /** The size of the unit with a given name, zero for a name that is not a unit of the resolution. */
  function SizeOf(r: Resolution, name: string): int {
    match r
    case Nanoseconds =>
      if name == "d" then 86_400_000_000_000
      else if name == "h" then 3_600_000_000_000
      else if name == "m" then 60_000_000_000
      else if name == "s" then 1_000_000_000
      else if name == "ms" then 1_000_000
      else if name == "\U{B5}s" then 1_000
      else if name == "ns" then 1
      else 0
    case Microseconds =>
      if name == "d" then 86_400_000_000
      else if name == "h" then 3_600_000_000
      else if name == "m" then 60_000_000
      else if name == "s" then 1_000_000
      else if name == "ms" then 1_000
      else if name == "\U{B5}s" then 1
      else 0
    case Milliseconds =>
      if name == "d" then 86_400_000
      else if name == "h" then 3_600_000
      else if name == "m" then 60_000
      else if name == "s" then 1_000
      else if name == "ms" then 1
      else 0
  }

  /** The value of one printed part: sign, digits, unit name. */
  function ReadPart(r: Resolution, s: string): int {
    if s != "" && s[0] == '-' then -ReadCount(r, s[1..]) else ReadCount(r, s)
  }

  function ReadCount(r: Resolution, s: string): int {
    ReadDigits(s[..Leading(s)]) * SizeOf(r, s[Leading(s)..])
  }

  /** The position of the first space, or the length. */
  function FirstSpace(s: string): (k: nat)
    ensures k <= |s|
    ensures k < |s| ==> s[k] == ' '
  {
    if s == "" || s[0] == ' ' then 0 else 1 + FirstSpace(s[1..])
  }

  /** The sum of all parts of a printed duration. */
  function Read(r: Resolution, s: string): int {
    var k := FirstSpace(s);
    if k == |s| then ReadPart(r, s) else ReadPart(r, s[..k]) + Read(r, s[k + 1..])
  }

  /** A part that prints as a word whose unit can be read back. */
  ghost predicate Readable(r: Resolution, p: Part) {
    && p.name != "" && !IsDigit(p.name[0]) && ' ' !in p.name
    && p.size == SizeOf(r, p.name)
  }

  lemma CountRead(r: Resolution, n: nat, name: string)
    requires name != "" && !IsDigit(name[0])
    ensures ReadCount(r, Digits(n) + name) == n * SizeOf(r, name)
  {
    DigitsRead(n);
    LeadingDigits(Digits(n), name);
    assert (Digits(n) + name)[..|Digits(n)|] == Digits(n);
    assert (Digits(n) + name)[|Digits(n)|..] == name;
  }

  lemma PartRead(r: Resolution, p: Part)
    requires Readable(r, p)
    ensures ReadPart(r, Show(p)) == p.count * p.size
    ensures Show(p) != "" && ' ' !in Show(p)
  {
    hide SizeOf, ReadCount, Digits, ReadDigits;
    if p.count < 0 {
      CountRead(r, -p.count, p.name);
      DigitsRead(-p.count);
      assert Show(p)[1..] == Digits(-p.count) + p.name;
      Negated(p.count, p.size);
    } else {
      CountRead(r, p.count, p.name);
      DigitsRead(p.count);
      assert IsDigit(Show(p)[0]);
    }
  }

  lemma Negated(a: int, b: int)
    ensures -((-a) * b) == a * b
  {
  }

  lemma {:induction false} FirstSpaceAt(w: string, rest: string)
    requires ' ' !in w && (rest == "" || rest[0] == ' ')
    ensures FirstSpace(w + rest) == |w|
  {
    if w == "" {
      assert w + rest == rest;
    } else {
      assert (w + rest)[1..] == w[1..] + rest;
      FirstSpaceAt(w[1..], rest);
    }
  }

  /** Joined parts read back to their total value. */
  lemma {:induction false} JoinRead(r: Resolution, parts: seq<Part>)
    requires parts != [] && forall k :: 0 <= k < |parts| ==> Readable(r, parts[k])
    ensures Read(r, Join(parts)) == Value(parts)
  {
    hide Show, ReadPart, FirstSpace, Readable;
    var w := Show(parts[0]);
    PartRead(r, parts[0]);
    if |parts| == 1 {
      assert parts[1..] == [];
      FirstSpaceAt(w, "");
      assert w + "" == w;
    } else {
      var rest := Join(parts[1..]);
      JoinRead(r, parts[1..]);
      FirstSpaceAt(w, " " + rest);
      var s := w + " " + rest;
      assert s == w + (" " + rest);
      assert s[..|w|] == w && s[|w| + 1..] == rest;
    }
  }

  /** No space in front or behind, and never two in a row. */
  ghost predicate WellSpaced(s: string) {
    && s != "" && s[0] != ' ' && s[|s| - 1] != ' '
    && forall i :: 0 < i < |s| ==> s[i - 1] != ' ' || s[i] != ' '
  }

  lemma {:induction false} JoinSpacing(r: Resolution, parts: seq<Part>)
    requires parts != [] && forall k :: 0 <= k < |parts| ==> Readable(r, parts[k])
    ensures WellSpaced(Join(parts))
  {
    hide Show, Readable;
    var w := Show(parts[0]);
    PartRead(r, parts[0]);
    if |parts| > 1 {
      JoinSpacing(r, parts[1..]);
      SpacedConcat(w, Join(parts[1..]));
    }
  }

  lemma SpacedConcat(w: string, rest: string)
    requires w != "" && ' ' !in w && WellSpaced(rest)
    ensures WellSpaced(w + " " + rest)
  {
    var s := w + " " + rest;
    forall i | 0 < i < |s|
      ensures s[i - 1] != ' ' || s[i] != ' '
    {
      if i <= |w| {
        assert s[i - 1] == w[i - 1];
      } else if i > |w| + 1 {
        var j := i - |w| - 1;
        assert s[i - 1] == rest[j - 1] && s[i] == rest[j];
      }
    }
  }

  lemma {:induction false} PartsReadable(r: Resolution, v: int, i: nat)
    requires i <= 4
    ensures forall k :: 0 <= k < |Parts(r, v, i)| ==> Readable(r, Parts(r, v, i)[k])
    decreases 4 - i
  {
    hide Div, Rem;
    if i < 4 {
      PartsReadable(r, v, i + 1);
      UnitReadable(r, Whole(r, v, i), i);
      hide Readable, Resolution.Size;
    } else {
      SubSecondReadable(r, v);
    }
  }

  lemma UnitReadable(r: Resolution, count: int, i: nat)
    requires i < 4
    ensures Readable(r, Part(count, NAMES[i], r.Size(i)))
  {
  }

  lemma SubSecondReadable(r: Resolution, v: int)
    ensures forall k :: 0 <= k < |SubSecond(r, v)| ==> Readable(r, SubSecond(r, v)[k])
  {
    hide Div, Rem;
  }

  /** Parts are separated by exactly one space, with none trailing. */
  lemma PrintedSpacing(r: Resolution, v: int)
    requires v != 0
    ensures WellSpaced(Join(Parts(r, v, 0)))
  {
    Denotes(r, v);
    PartsReadable(r, v, 0);
    JoinSpacing(r, Parts(r, v, 0));
  }

  // The printed parts are the only canonical ones.

  /** Where a unit stands in a printed duration. */
  function Place(name: string): (k: nat)
    ensures k <= 4
  {
    if name == "d" then 0
    else if name == "h" then 1
    else if name == "m" then 2
    else if name == "s" then 3
    else 4
  }

  /** How many of a unit make the next coarser one that is printed. */
  function Limit(name: string): int {
    if name == "h" then 24
    else if name == "m" || name == "s" then 60
    else if name == "ms" then 1_000
    else if name == "\U{B5}s" then 1_000_000
    else 1_000_000_000
  }

  /**
   * A part as a reader expects it: a unit of the resolution, not zero, less than the next coarser unit, and
   * in the coarsest sub-second unit that is exact.
   */
  ghost predicate CanonicalPart(r: Resolution, p: Part) {
    && p.size == SizeOf(r, p.name) > 0
    && p.count != 0
    && (p.name != "d" ==> -Limit(p.name) < p.count < Limit(p.name))
    && (p.name == "ns" || p.name == "\U{B5}s" ==> p.count % 1_000 != 0)
  }

  /** Canonical parts in strictly falling units, from place `i` on. */
  ghost predicate Canonical(r: Resolution, parts: seq<Part>, i: nat) {
    && (forall k :: 0 <= k < |parts| ==> CanonicalPart(r, parts[k]) && Place(parts[k].name) >= i)
    && forall j, k :: 0 <= j < k < |parts| ==> Place(parts[j].name) < Place(parts[k].name)
  }

  /** The twelve unit sizes and the three sub-second names. */
  lemma Units()
    ensures Nanoseconds.Size(0) == 86_400_000_000_000 && Nanoseconds.Size(1) == 3_600_000_000_000
    ensures Nanoseconds.Size(2) == 60_000_000_000 && Nanoseconds.Size(3) == 1_000_000_000
    ensures Microseconds.Size(0) == 86_400_000_000 && Microseconds.Size(1) == 3_600_000_000
    ensures Microseconds.Size(2) == 60_000_000 && Microseconds.Size(3) == 1_000_000
    ensures Milliseconds.Size(0) == 86_400_000 && Milliseconds.Size(1) == 3_600_000
    ensures Milliseconds.Size(2) == 60_000 && Milliseconds.Size(3) == 1_000
    ensures Nanoseconds.BaseName() == "ns" && Microseconds.BaseName() == "\U{B5}s" && Milliseconds.BaseName() == "ms"
    ensures NAMES == ["d", "h", "m", "s"]
  {
  }

  /** Quotient and remainder are the only way to split a number by a unit without changing sign. */
  lemma DivUnique(x: int, c: int, y: int, n: int)
    requires n > 0 && x == c * n + y
    requires (c >= 0 && 0 <= y < n) || (c <= 0 && -n < y <= 0)
    ensures Div(x, n) == c && Rem(x, n) == y
  {
    if c >= 0 && 0 <= y < n {
      DivModUnique(x, n, c, y);
    } else {
      DivModUnique(-x, n, -c, -y);
    }
  }

  lemma DivModUnique(x: int, n: int, c: int, y: int)
    requires n > 0 && x == c * n + y && 0 <= y < n
    ensures x / n == c && x % n == y
  {
    QuotientUnique(x, n, c, y);
    SameQuotient(x / n, c, n);
  }

  lemma SameQuotient(a: int, b: int, n: int)
    requires n > 0 && a * n == b * n
    ensures a == b
  {
  }

  lemma {:induction false} CanonicalTail(r: Resolution, parts: seq<Part>, i: nat, v: int)
    requires Canonical(r, parts, i) && SameSign(parts, v) && parts != []
    ensures Canonical(r, parts[1..], Place(parts[0].name) + 1) && SameSign(parts[1..], v)
    ensures Place(parts[0].name) == 4 ==> parts[1..] == []
  {
    hide CanonicalPart, Place;
    var tail := parts[1..];
    if |parts| > 1 {
      assert Place(parts[0].name) < Place(parts[1].name);
    }
    forall k | 0 <= k < |tail|
      ensures tail[k] == parts[k + 1] && Place(tail[k].name) > Place(parts[0].name)
    {
    }
  }

  /** Everything after a place is smaller than one unit of the place before. */
  lemma {:induction false} CanonicalBound(r: Resolution, parts: seq<Part>, i: nat, v: int)
    requires 0 < i <= 4 && Canonical(r, parts, i) && SameSign(parts, v)
    ensures v >= 0 ==> 0 <= Value(parts) < r.Size(i - 1)
    ensures v <= 0 ==> -r.Size(i - 1) < Value(parts) <= 0
    decreases 4 - i
  {
    hide CanonicalPart, Canonical, SameSign;
    if parts != [] {
      CanonicalTail(r, parts, i, v);
      var p := Place(parts[0].name);
      HeadCanonical(r, parts, i, v);
      if p < 4 {
        CanonicalBound(r, parts[1..], p + 1, v);
      }
      HeadBound(r, parts[0], i, Value(parts[1..]), v);
    }
  }

  lemma HeadCanonical(r: Resolution, parts: seq<Part>, i: nat, v: int)
    requires Canonical(r, parts, i) && SameSign(parts, v) && parts != []
    ensures CanonicalPart(r, parts[0]) && i <= Place(parts[0].name) <= 4
    ensures v != 0 && (v > 0 <==> parts[0].count > 0)
  {
    assert Place(parts[0].name) <= 4;
  }

  lemma HeadBound(r: Resolution, p: Part, i: nat, rest: int, v: int)
    requires CanonicalPart(r, p) && 0 < i <= Place(p.name) <= 4 && v != 0 && (v > 0 <==> p.count > 0)
    requires Place(p.name) == 4 ==> rest == 0
    requires Place(p.name) < 4 && v > 0 ==> 0 <= rest < r.Size(Place(p.name))
    requires Place(p.name) < 4 && v < 0 ==> -r.Size(Place(p.name)) < rest <= 0
    ensures v > 0 ==> 0 <= p.count * p.size + rest < r.Size(i - 1)
    ensures v < 0 ==> -r.Size(i - 1) < p.count * p.size + rest <= 0
  {
  }

  /** Remainders by a thousand and its powers depend only on what is left of the second. */
  lemma SubSecondRest(r: Resolution, v: int)
    ensures var x := Rem(v, r.Second());
            && Rem(x, 1_000) == Rem(v, 1_000)
            && (!r.Milliseconds? ==> Rem(x, 1_000_000) == Rem(v, 1_000_000))
            && (r.Nanoseconds? ==> x == Rem(v, 1_000_000_000))
  {
    hide Div, Rem;
    NestedRem(v, r.Second() / 1_000, 1_000, r.Second());
    if !r.Milliseconds? {
      NestedRem(v, r.Second() / 1_000_000, 1_000_000, r.Second());
    }
  }

  /** A number that is not a multiple of a thousand, and the same a thousand times over. */
  lemma Thousands(c: int)
    ensures Rem(c, 1_000) != 0 <==> c % 1_000 != 0
    ensures Rem(c * 1_000, 1_000) == 0 && Div(c * 1_000, 1_000) == c
    ensures Rem(c * 1_000, 1_000_000) == Rem(c, 1_000) * 1_000
  {
    DivUnique(c * 1_000, c, 0, 1_000);
    Signs(c, 1_000);
    DivUnique(c * 1_000, Div(c, 1_000), Rem(c, 1_000) * 1_000, 1_000_000);
  }

  lemma Millions(c: int)
    requires -1_000 < c < 1_000
    ensures Rem(c * 1_000_000, 1_000) == 0 && Rem(c * 1_000_000, 1_000_000) == 0 && Div(c * 1_000_000, 1_000_000) == c
  {
    DivUnique(c * 1_000_000, c * 1_000, 0, 1_000);
    DivUnique(c * 1_000_000, c, 0, 1_000_000);
  }

  lemma SubSecondPart(r: Resolution, p: Part, v: int)
    requires CanonicalPart(r, p) && Place(p.name) == 4 && p.count * p.size == Rem(v, r.Second())
    ensures SubSecond(r, v) == [p]
  {
    hide Div, Rem;
    SubSecondRest(r, v);
    Thousands(p.count);
    if p.name == "ms" {
      if r.Nanoseconds? {
        Millions(p.count);
      } else {
        SmallRem(p.count);
      }
    }
  }

  lemma SmallRem(c: int)
    requires -1_000 < c < 1_000
    ensures Rem(c, 1_000) == c
  {
  }

  /** The sub-second part is determined by what is left of the second. */
  lemma SubSecondUnique(r: Resolution, parts: seq<Part>, v: int)
    requires Canonical(r, parts, 4) && SameSign(parts, v) && Value(parts) == Rem(v, r.Second())
    ensures parts == SubSecond(r, v)
  {
    hide Div, Rem, SubSecond, CanonicalPart, SizeOf;
    if parts == [] {
      SubSecondValue(r, v);
      SubSecondSizes(r, v);
      ValueSign(SubSecond(r, v), v);
    } else {
      HeadCanonical(r, parts, 4, v);
      CanonicalTail(r, parts, 4, v);
      assert parts == [parts[0]] + parts[1..];
      SubSecondPart(r, parts[0], v);
    }
  }

  lemma SubSecondSizes(r: Resolution, v: int)
    ensures forall k :: 0 <= k < |SubSecond(r, v)| ==> SubSecond(r, v)[k].size > 0
  {
    hide Div, Rem;
  }

  /** The printed sub-second part is canonical. */
  lemma SubSecondCanonical(r: Resolution, v: int)
    ensures Canonical(r, SubSecond(r, v), 4)
  {
    hide Div, Rem;
    SubSecondRest(r, v);
    var x := Rem(v, r.Second());
    Signs(v, r.Second());
    if Rem(v, 1_000) != 0 {
      Thousands(x);
      FinestPart(r, v);
    } else if !r.Milliseconds? && Rem(v, 1_000_000) != 0 {
      CoarserPart(r, v, 1_000, 1_000_000);
      Thousands(Div(x, 1_000));
    } else if r.Nanoseconds? && Rem(v, 1_000_000_000) != 0 {
      CoarserPart(r, v, 1_000_000, 1_000_000_000);
    }
  }

  lemma WholeCanonical(r: Resolution, v: int, i: nat)
    requires i < 4 && Whole(r, v, i) != 0
    ensures CanonicalPart(r, Part(Whole(r, v, i), NAMES[i], r.Size(i)))
  {
    hide Div, Rem;
    if i > 0 {
      Signs(v, r.Size(i - 1));
    }
    Signs(Left(r, v, i), r.Size(i));
    LeftSplits(r, v, i);
  }

  /** The printed parts are canonical. */
  lemma {:induction false} PartsCanonical(r: Resolution, v: int, i: nat)
    requires i <= 4
    ensures Canonical(r, Parts(r, v, i), i)
    decreases 4 - i
  {
    hide Div, Rem, Whole, CanonicalPart, SizeOf, SubSecond, Resolution.Size, Place, Canonical;
    if i == 4 {
      SubSecondCanonical(r, v);
    } else {
      PartsCanonical(r, v, i + 1);
      var rest := Parts(r, v, i + 1);
      if Whole(r, v, i) != 0 {
        WholeCanonical(r, v, i);
        PlaceOfName(i);
        CanonicalCons(r, Part(Whole(r, v, i), NAMES[i], r.Size(i)), rest, i);
      } else {
        CanonicalEarlier(r, rest, i);
      }
    }
  }

  lemma PlaceOfName(i: nat)
    requires i < 4
    ensures Place(NAMES[i]) == i
  {
  }

  lemma CanonicalEarlier(r: Resolution, parts: seq<Part>, i: nat)
    requires Canonical(r, parts, i + 1)
    ensures Canonical(r, parts, i)
  {
    hide CanonicalPart, Place;
  }

  lemma CanonicalCons(r: Resolution, p: Part, rest: seq<Part>, i: nat)
    requires CanonicalPart(r, p) && Place(p.name) == i && Canonical(r, rest, i + 1)
    ensures Canonical(r, [p] + rest, i)
  {
    hide CanonicalPart, Place;
    var parts := [p] + rest;
    assert forall k :: 0 < k < |parts| ==> parts[k] == rest[k - 1];
  }

  /**
   * A printed duration is the only list of canonical parts, all of the duration's sign, that adds up to it.
   */
  lemma OnlyCanonical(r: Resolution, parts: seq<Part>, v: int)
    requires v != 0
    ensures parts == Parts(r, v, 0) <==> Canonical(r, parts, 0) && SameSign(parts, v) && Value(parts) == v
  {
    Denotes(r, v);
    PartsCanonical(r, v, 0);
    if Canonical(r, parts, 0) && SameSign(parts, v) && Value(parts) == v {
      PartsUnique(r, parts, v, 0);
    }
  }

  lemma LeftUnique(r: Resolution, v: int, i: nat, c: int, y: int)
    requires i < 4 && Left(r, v, i) == c * r.Size(i) + y
    requires (c >= 0 && 0 <= y < r.Size(i)) || (c <= 0 && -r.Size(i) < y <= 0)
    ensures Whole(r, v, i) == c && Left(r, v, i + 1) == y
  {
    hide Div, Rem, Resolution.Size;
    DivUnique(Left(r, v, i), c, y, r.Size(i));
    LeftSplits(r, v, i);
  }

  /** The only canonical parts that add up to what is left of a duration are the printed ones. */
  lemma {:induction false} PartsUnique(r: Resolution, parts: seq<Part>, v: int, i: nat)
    requires i <= 4 && v != 0 && Canonical(r, parts, i) && SameSign(parts, v) && Value(parts) == Left(r, v, i)
    ensures parts == Parts(r, v, i)
    decreases 4 - i
  {
    hide Div, Rem, CanonicalPart, Canonical, SameSign, Resolution.Size, SubSecond, Whole, Place;
    if i == 4 {
      LastSize(r);
      SubSecondUnique(r, parts, v);
    } else {
      hide Left;
      if parts != [] && Place(parts[0].name) == i {
        HeadCanonical(r, parts, i, v);
        CanonicalTail(r, parts, i, v);
        CanonicalBound(r, parts[1..], i + 1, v);
        HeadUnit(r, parts[0], i);
        LeftUnique(r, v, i, parts[0].count, Value(parts[1..]));
        PartsUnique(r, parts[1..], v, i + 1);
        assert parts == [parts[0]] + parts[1..];
      } else {
        assert Canonical(r, parts, i + 1) by { CanonicalLater(r, parts, i); }
        CanonicalBound(r, parts, i + 1, v);
        LeftUnique(r, v, i, 0, Value(parts));
        PartsUnique(r, parts, v, i + 1);
      }
    }
  }

  lemma HeadUnit(r: Resolution, p: Part, i: nat)
    requires CanonicalPart(r, p) && Place(p.name) == i < 4
    ensures p.name == NAMES[i] && p.size == r.Size(i)
  {
  }

  lemma CanonicalLater(r: Resolution, parts: seq<Part>, i: nat)
    requires Canonical(r, parts, i) && (parts == [] || Place(parts[0].name) != i)
    ensures Canonical(r, parts, i + 1)
  {
    hide CanonicalPart, Place;
    forall k | 0 <= k < |parts|
      ensures Place(parts[k].name) >= i + 1
    {
      assert k > 0 ==> Place(parts[0].name) < Place(parts[k].name);
    }
  }

  /** A printed duration reads back as the duration, so no two durations print alike. */
  lemma PrintedValue(r: Resolution, v: int)
    ensures Read(r, if v == 0 then "0" + r.BaseName() else Join(Parts(r, v, 0))) == v
  {
    if v == 0 {
      PartRead(r, Part(0, r.BaseName(), 1));
      var w := "0" + r.BaseName();
      FirstSpaceAt(w, "");
      assert w + "" == w;
    } else {
      Denotes(r, v);
      PartsReadable(r, v, 0);
      JoinRead(r, Parts(r, v, 0));
    }
  }
}
