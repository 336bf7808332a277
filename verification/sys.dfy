/** The uptime value shown on the status page and its human-readable display. */
module Sys {
  import opened Wrappers
  import Decimal
  import Words

  const ONE_DAY: nat := 24 * 60 * 60
  const ONE_HOUR: nat := 60 * 60

  type U64 = x: nat | x < 0x1_0000_0000_0000_0000

  /** Seconds since boot. */
  datatype Uptime = Uptime(seconds: U64)

  function New(seconds: U64): (u: Uptime)
    ensures u.seconds == seconds
  {
    Uptime(seconds)
  }

  /** Whole days, then hours and minutes within the last day; seconds are dropped. */
  datatype Parts = Parts(days: nat, hours: nat, minutes: nat)

  function Breakdown(u: Uptime): (p: Parts)
    ensures p.hours < 24 && p.minutes < 60
    ensures Seconds(p) <= u.seconds < Seconds(p) + 60
  {
    var s := u.seconds;
    var days := s / ONE_DAY;
    var totalHours := s % ONE_DAY;
    var hours := totalHours / ONE_HOUR;
    var minutes := totalHours % ONE_HOUR / 60;
    assert totalHours == hours * ONE_HOUR + totalHours % ONE_HOUR;
    assert totalHours % ONE_HOUR == minutes * 60 + totalHours % ONE_HOUR % 60;
    Parts(days, hours, minutes)
  }

  /** The number of seconds the parts stand for. */
  function Seconds(p: Parts): nat {
    p.days * ONE_DAY + p.hours * ONE_HOUR + p.minutes * 60
  }

  /** `n` followed by a one-letter unit. */
  function Fragment(n: nat, unit: char): string {
    Decimal.NatToString(n) + [unit]
  }

  /** The displayed fragments, in the order days, hours, minutes, else the seconds form. */
  function Fragments(u: Uptime): seq<string> {
    var p := Breakdown(u);
    (if p.days > 0 then [Fragment(p.days, 'd')] else [])
    + (if p.hours > 0 then [Fragment(p.hours, 'h')] else [])
    + (if p.minutes > 0 then [Fragment(p.minutes, 'm')] else [])
    + (if p.days == 0 && p.hours == 0 && p.minutes == 0
       then [Decimal.NatToString(u.seconds) + " secs"] else [])
  }

  /**
    The `Display` text: the fragments joined by single spaces. It is never
    empty, and it takes the "<n> secs" form exactly when less than a minute
    has passed.
   */
  function Display(u: Uptime): (r: string)
    ensures r != []
    ensures u.seconds < 60 <==> EndsWithSecs(r)
    ensures u.seconds < 60 ==> r == Decimal.NatToString(u.seconds) + " secs"
  {
    var fs := Fragments(u);
    FragmentsShape(u);
    JoinEndsWithLast(fs, ' ');
    Words.Join(fs, ' ')
  }

  /** The unit letter a fragment ends with. */
  function LastChar(s: string): char
    requires |s| > 0
  {
    s[|s| - 1]
  }

  lemma FragmentsShape(u: Uptime)
    ensures var fs := Fragments(u);
      && |fs| > 0
      && (u.seconds < 60 ==> fs == [Decimal.NatToString(u.seconds) + " secs"])
      && (u.seconds >= 60 ==>
            |fs[|fs| - 1]| > 0 && LastChar(fs[|fs| - 1]) in {'d', 'h', 'm'})
  {
    var p := Breakdown(u);
    if u.seconds < 60 {
      assert p == Parts(0, 0, 0);
    } else {
      assert !(p.days == 0 && p.hours == 0 && p.minutes == 0);
    }
  }

  predicate EndsWithSecs(r: string) {
    |r| >= 5 && r[|r| - 5..] == " secs"
  }

  /** The last character of a join is the last character of its last non-empty element. */
  lemma {:induction false} JoinEndsWithLast(ws: seq<string>, sep: char)
    requires |ws| > 0 && |ws[|ws| - 1]| > 0
    ensures var r := Words.Join(ws, sep);
      |r| > 0 && r[|r| - 1] == ws[|ws| - 1][|ws[|ws| - 1]| - 1]
    decreases |ws|
  {
    if |ws| > 1 {
      JoinEndsWithLast(ws[1..], sep);
    }
  }

  // A reader of the display text, independent of how it is produced: it
  // accepts "<n> secs", or one to three space-separated fragments "<n>d",
  // "<n>h", "<n>m" with non-zero values in that order, and nothing else.

  /** What a display text shows. */
  datatype Shown = ShownParts(parts: Parts) | ShownSecs(seconds: nat)

  /** What the display of `u` is meant to show. */
  function ShownOf(u: Uptime): Shown {
    if u.seconds < 60 then ShownSecs(u.seconds) else ShownParts(Breakdown(u))
  }

  /** Position of a unit letter in the order days, hours, minutes; 3 for anything else. */
  function UnitRank(c: char): nat {
    if c == 'd' then 0 else if c == 'h' then 1 else if c == 'm' then 2 else 3
  }

  function WithPart(p: Parts, rank: nat, v: nat): Parts
    requires rank <= 2
  {
    if rank == 0 then p.(days := v)
    else if rank == 1 then p.(hours := v)
    else p.(minutes := v)
  }

  /** Reads fragments whose units are at `rank` or later, each unit at most once. */
  function ParseFragments(ws: seq<string>, rank: nat): Option<Parts>
    decreases |ws|
  {
    if ws == [] then Some(Parts(0, 0, 0))
    else
      var w := ws[0];
      if |w| < 2 then None
      else
        var k := UnitRank(LastChar(w));
        var v := Decimal.ParseDigits(w[..|w| - 1]);
        if k < rank || k > 2 || v.None? || v.value == 0 then None
        else
          match ParseFragments(ws[1..], k + 1)
          case None => None
          case Some(rest) => Some(WithPart(rest, k, v.value))
  }

  function ParseDisplay(r: string): Option<Shown> {
    var ws := Words.Split(r, ' ');
    if |ws| == 2 && ws[1] == "secs" then
      match Decimal.ParseDigits(ws[0])
      case Some(n) => Some(ShownSecs(n))
      case None => None
    else
      match ParseFragments(ws, 0)
      case Some(p) => Some(ShownParts(p))
      case None => None
  }

  /** The fragment for a component, present only when the component is non-zero. */
  function Optional(n: nat, unit: char): seq<string> {
    if n > 0 then [Fragment(n, unit)] else []
  }

  lemma FragmentHasNoSpace(n: nat, unit: char)
    requires unit != ' '
    ensures ' ' !in Fragment(n, unit)
  {
    Decimal.DigitsHaveNoChar(Decimal.NatToString(n), ' ');
  }

  lemma ParseOptional(n: nat, unit: char, rest: seq<string>, rank: nat)
    requires rank <= UnitRank(unit) <= 2
    ensures ParseFragments(Optional(n, unit) + rest, rank) ==
      if n == 0 then ParseFragments(rest, rank)
      else match ParseFragments(rest, UnitRank(unit) + 1)
        case None => None
        case Some(p) => Some(WithPart(p, UnitRank(unit), n))
  {
    if n > 0 {
      var w := Fragment(n, unit);
      var ws := [w] + rest;
      assert ws[0] == w && ws[1..] == rest;
      assert w[..|w| - 1] == Decimal.NatToString(n);
      assert LastChar(w) == unit;
      assert Decimal.ParseDigits(w[..|w| - 1]) == Some(n);
    } else {
      assert Optional(n, unit) + rest == rest;
    }
  }

  /** The display text reads back as exactly what it is meant to show. */
  lemma {:induction false} ParseDisplayRoundTrip(u: Uptime)
    ensures ParseDisplay(Display(u)) == Some(ShownOf(u))
  {
    if u.seconds < 60 {
      ParseSecsRoundTrip(u);
    } else {
      ParsePartsDisplay(u);
    }
  }

  lemma ParsePartsDisplay(u: Uptime)
    requires u.seconds >= 60
    ensures ParseDisplay(Display(u)) == Some(ShownParts(Breakdown(u)))
  {
    var p := Breakdown(u);
    var ws := Words.Split(Display(u), ' ');
    SplitDisplay(u);
    FragmentsShape(u);
    assert ws == Fragments(u);
    assert |ws| == 2 ==> LastChar(ws[1]) != 's';
    assert !(|ws| == 2 && ws[1] == "secs");
    ParsePartsRoundTrip(p);
    assert ParseFragments(ws, 0) == Some(p);
  }

  /** From a minute on, the display splits at its spaces into the non-zero fragments. */
  lemma SplitDisplay(u: Uptime)
    requires u.seconds >= 60
    ensures var p := Breakdown(u);
      && Fragments(u) == Optional(p.days, 'd') + Optional(p.hours, 'h') + Optional(p.minutes, 'm')
      && Words.Split(Display(u), ' ') == Fragments(u)
  {
    var p := Breakdown(u);
    var fs := Fragments(u);
    FragmentsShape(u);
    assert fs == Optional(p.days, 'd') + Optional(p.hours, 'h') + Optional(p.minutes, 'm');
    FragmentsHaveNoSpace(p);
    Words.SplitJoin(fs, ' ');
  }

  lemma ParseSecsRoundTrip(u: Uptime)
    requires u.seconds < 60
    ensures ParseDisplay(Display(u)) == Some(ShownSecs(u.seconds))
  {
    FragmentsShape(u);
    var n := Decimal.NatToString(u.seconds);
    Decimal.DigitsHaveNoChar(n, ' ');
    assert Display(u) == Words.Join([n, "secs"], ' ');
    Words.SplitJoin([n, "secs"], ' ');
    assert Decimal.ParseDigits(n) == Some(u.seconds);
  }

  lemma FragmentsHaveNoSpace(p: Parts)
    ensures var fs := Optional(p.days, 'd') + Optional(p.hours, 'h') + Optional(p.minutes, 'm');
      forall i :: 0 <= i < |fs| ==> ' ' !in fs[i]
  {
    FragmentHasNoSpace(p.days, 'd');
    FragmentHasNoSpace(p.hours, 'h');
    FragmentHasNoSpace(p.minutes, 'm');
  }

  lemma ParsePartsRoundTrip(p: Parts)
    ensures ParseFragments(Optional(p.days, 'd') + Optional(p.hours, 'h') + Optional(p.minutes, 'm'), 0)
      == Some(p)
  {
    var ds, hs, ms := Optional(p.days, 'd'), Optional(p.hours, 'h'), Optional(p.minutes, 'm');
    ParseOptional(p.minutes, 'm', [], 2);
    ParseOptional(p.minutes, 'm', [], 1);
    ParseOptional(p.minutes, 'm', [], 0);
    assert ms + [] == ms;
    ParseOptional(p.hours, 'h', ms, 1);
    ParseOptional(p.hours, 'h', ms, 0);
    ParseOptional(p.days, 'd', hs + ms, 0);
    assert ds + hs + ms == ds + (hs + ms);
  }

  /** Different things shown never share a display text. */
  lemma DisplayInjective(u1: Uptime, u2: Uptime)
    requires Display(u1) == Display(u2)
    ensures ShownOf(u1) == ShownOf(u2)
  {
    ParseDisplayRoundTrip(u1);
    ParseDisplayRoundTrip(u2);
  }
}
