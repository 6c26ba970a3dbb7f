/**
 * The gradient theme of src/theme.rs: charge states, gradient stops, the three
 * per-state sections, the `Totalize` order, the stable sort `load` applies to each
 * section, and the `colors_at` lookup.
 *
 * Colours are Oklab-with-alpha tuples.  Mixing two colours is palette's `Mix::mix`,
 * an external numeric routine, so `colors_at` takes it as a parameter; `Lerp` is the
 * channel-wise linear interpolation that palette documents and serves as a reference
 * instance.
 */
module Themes {
  import opened Base

  datatype ChargeState = Charging | NoCharge | Discharging

  /** palette's Oklaba: lightness, two chroma axes, alpha. */
  datatype Oklaba = Oklaba(l: real, a: real, b: real, alpha: real)

  datatype GradientStop = GradientStop(level: real, fg: Oklaba, bg: Oklaba)

  datatype Theme = Theme(discharging: seq<GradientStop>, noCharge: seq<GradientStop>, charging: seq<GradientStop>)

  /** palette's `mix(self, other, factor)`. */
  type MixFn = (Oklaba, Oklaba, real) -> Oklaba

  // ------------------------------------------------------------------ Totalize

  datatype Ordering = Less | Equal | Greater

  /** `f32::total_cmp`, on reals (where there is no NaN and no signed zero). */
  function TotalCmp(x: real, y: real): (o: Ordering)
    ensures o == Less <==> x < y
    ensures o == Greater <==> y < x
  {
    if x < y then Less else if y < x then Greater else Equal
  }

  /** `Totalize::eq` is defined as `cmp(..).is_eq()`. */
  function TotalizeEq(x: real, y: real): (b: bool)
    ensures b <==> x == y
  {
    TotalCmp(x, y) == Equal
  }

  /** `Totalize::cmp` is a total order: antisymmetric, transitive and total. */
  lemma TotalCmpIsTotalOrder(x: real, y: real, z: real)
    ensures TotalCmp(x, y) == Less <==> TotalCmp(y, x) == Greater
    ensures TotalCmp(x, y) == Equal <==> TotalCmp(y, x) == Equal
    ensures TotalCmp(x, y) != Greater && TotalCmp(y, z) != Greater ==> TotalCmp(x, z) != Greater
    ensures TotalCmp(x, y) != Greater || TotalCmp(y, x) != Greater
  {
  }

  // ------------------------------------------------------------------ sections

  /** `section_by_name`: the stops of one charge state. */
  function SectionByName(t: Theme, state: ChargeState): seq<GradientStop>
  {
    match state
    case Charging => t.charging
    case NoCharge => t.noCharge
    case Discharging => t.discharging
  }

  /** `section_by_name_mut` followed by an update: replaces the named section and no other. */
  function WithSection(t: Theme, state: ChargeState, s: seq<GradientStop>): (t': Theme)
    ensures SectionByName(t', state) == s
    ensures forall other :: other != state ==> SectionByName(t', other) == SectionByName(t, other)
  {
    match state
    case Charging => t.(charging := s)
    case NoCharge => t.(noCharge := s)
    case Discharging => t.(discharging := s)
  }

  // ------------------------------------------------------------------ stable sort by level

  ghost predicate SortedByLevel(s: seq<GradientStop>)
  {
    forall i, j :: 0 <= i < j < |s| ==> s[i].level <= s[j].level
  }

  /** The stops of `s` whose level is `k`, in their order in `s`. */
  function AtLevel(s: seq<GradientStop>, k: real): seq<GradientStop>
  {
    if s == [] then []
    else (if s[0].level == k then [s[0]] else []) + AtLevel(s[1..], k)
  }

  /** Inserts `x` before the first stop whose level is not below it: `x` stays ahead of equal-level stops. */
  function InsertByLevel(x: GradientStop, s: seq<GradientStop>): seq<GradientStop>
  {
    if s == [] || TotalCmp(x.level, s[0].level) != Greater then [x] + s
    else [s[0]] + InsertByLevel(x, s[1..])
  }

  /** Rust's `sort_by_key(|stop| Totalize(stop.level))`: a stable sort, here an insertion sort. */
  function SortByLevel(s: seq<GradientStop>): seq<GradientStop>
  {
    if s == [] then [] else InsertByLevel(s[0], SortByLevel(s[1..]))
  }

  lemma {:induction false} InsertByLevelKeepsBound(x: GradientStop, s: seq<GradientStop>, b: real)
    requires b <= x.level
    requires forall k :: 0 <= k < |s| ==> b <= s[k].level
    ensures |InsertByLevel(x, s)| == |s| + 1
    ensures forall k :: 0 <= k < |InsertByLevel(x, s)| ==> b <= InsertByLevel(x, s)[k].level
  {
    if s != [] && TotalCmp(x.level, s[0].level) == Greater {
      InsertByLevelKeepsBound(x, s[1..], b);
    }
  }

  lemma {:induction false} InsertByLevelSorted(x: GradientStop, s: seq<GradientStop>)
    requires SortedByLevel(s)
    ensures SortedByLevel(InsertByLevel(x, s))
  {
    if s == [] || TotalCmp(x.level, s[0].level) != Greater {
      var r := [x] + s;
      forall i, j | 0 <= i < j < |r| ensures r[i].level <= r[j].level {
        if i > 0 {
          assert r[i] == s[i - 1] && r[j] == s[j - 1];
        } else if j > 1 {
          assert r[j] == s[j - 1];
          assert s[0].level <= s[j - 1].level;
        }
      }
    } else {
      var tail := s[1..];
      assert SortedByLevel(tail) by {
        forall i, j | 0 <= i < j < |tail| ensures tail[i].level <= tail[j].level {
          assert tail[i] == s[i + 1] && tail[j] == s[j + 1];
        }
      }
      InsertByLevelSorted(x, tail);
      var rest := InsertByLevel(x, tail);
      forall k | 0 <= k < |tail| ensures s[0].level <= tail[k].level {
        assert tail[k] == s[k + 1];
      }
      InsertByLevelKeepsBound(x, tail, s[0].level);
      var r := [s[0]] + rest;
      assert InsertByLevel(x, s) == r;
      forall i, j | 0 <= i < j < |r| ensures r[i].level <= r[j].level {
        assert r[j] == rest[j - 1];
        if i > 0 {
          assert r[i] == rest[i - 1];
        }
      }
    }
  }

  lemma {:induction false} InsertByLevelPermutes(x: GradientStop, s: seq<GradientStop>)
    ensures multiset(InsertByLevel(x, s)) == multiset(s) + multiset{x}
  {
    if s != [] && TotalCmp(x.level, s[0].level) == Greater {
      InsertByLevelPermutes(x, s[1..]);
      assert s == [s[0]] + s[1..];
    }
  }

  lemma {:induction false} InsertByLevelAtLevel(x: GradientStop, s: seq<GradientStop>, k: real)
    ensures AtLevel(InsertByLevel(x, s), k) == (if x.level == k then [x] else []) + AtLevel(s, k)
  {
    var r := InsertByLevel(x, s);
    if s == [] || TotalCmp(x.level, s[0].level) != Greater {
      assert r[1..] == s;
    } else {
      var rest := InsertByLevel(x, s[1..]);
      assert r[1..] == rest;
      InsertByLevelAtLevel(x, s[1..], k);
    }
  }

  /** After the sort a section is ordered by level, a permutation of the parsed stops, and stable. */
  lemma {:induction false} SortByLevelIsStableSort(s: seq<GradientStop>)
    ensures SortedByLevel(SortByLevel(s))
    ensures multiset(SortByLevel(s)) == multiset(s)
    ensures forall k :: AtLevel(SortByLevel(s), k) == AtLevel(s, k)
  {
    if s != [] {
      SortByLevelIsStableSort(s[1..]);
      InsertByLevelSorted(s[0], SortByLevel(s[1..]));
      InsertByLevelPermutes(s[0], SortByLevel(s[1..]));
      assert s == [s[0]] + s[1..];
      forall k ensures AtLevel(SortByLevel(s), k) == AtLevel(s, k) {
        InsertByLevelAtLevel(s[0], SortByLevel(s[1..]), k);
      }
    }
  }

  // ------------------------------------------------------------------ colors_at

  /** Index of the first stop whose level is above `level`, or |s| when there is none. */
  function FirstAbove(s: seq<GradientStop>, level: real): (i: nat)
    ensures i <= |s|
    ensures forall k :: 0 <= k < i ==> s[k].level <= level
    ensures i < |s| ==> s[i].level > level
  {
    if s == [] then 0
    else if s[0].level > level then 0
    else 1 + FirstAbove(s[1..], level)
  }

  /** The stops the scan of `colors_at` ends on: (last, next). */
  function Bracket(s: seq<GradientStop>, level: real): (r: (nat, nat))
    requires |s| > 0
    ensures r.0 < |s| && r.1 < |s|
  {
    var i := FirstAbove(s, level);
    if i == |s| then (|s| - 1, |s| - 1)
    else if i == 0 then (0, 0)
    else (i - 1, i)
  }

  /** Interpolation ratio of `level` between two stops of different levels. */
  function Ratio(last: GradientStop, next: GradientStop, level: real): real
    requires last.level != next.level
  {
    (level - last.level) / (next.level - last.level)
  }

  /** The value `colors_at` returns, stated through the bracketing stops. */
  function ColorsAtSpec(mix: MixFn, s: seq<GradientStop>, level: real): (Oklaba, Oklaba)
    requires |s| > 0
  {
    var (li, ni) := Bracket(s, level);
    var last := s[li];
    var next := s[ni];
    if last.level == next.level then (last.fg, last.bg)
    else
      var ratio := Ratio(last, next, level);
      (mix(last.fg, next.fg, ratio), mix(last.bg, next.bg, ratio))
  }

  /** `Theme::colors_at`: a forward scan over the section that stops at the first stop above `level`. */
  method ColorsAt(mix: MixFn, theme: Theme, state: ChargeState, level: real) returns (fg: Oklaba, bg: Oklaba)
    requires |SectionByName(theme, state)| > 0
    ensures (fg, bg) == ColorsAtSpec(mix, SectionByName(theme, state), level)
  {
    var section := SectionByName(theme, state);
    var last := section[0];
    var next := section[0];
    var i := 0;
    while i < |section|
      invariant 0 <= i <= |section|
      invariant forall k :: 0 <= k < i ==> section[k].level <= level
      invariant last == section[if i == 0 then 0 else i - 1]
      invariant next == last
    {
      next := section[i];
      if section[i].level > level {
        break;
      }
      last := section[i];
      i := i + 1;
    }
    assert (last, next) == (section[Bracket(section, level).0], section[Bracket(section, level).1]);
    if last.level == next.level {
      fg, bg := last.fg, last.bg;
    } else {
      var ratio := (level - last.level) / (next.level - last.level);
      fg := mix(last.fg, next.fg, ratio);
      bg := mix(last.bg, next.bg, ratio);
    }
  }

  /** A level below the first stop gives the first stop's colours unchanged. */
  lemma ColorsBelowFirstStop(mix: MixFn, s: seq<GradientStop>, level: real)
    requires |s| > 0 && level < s[0].level
    ensures ColorsAtSpec(mix, s, level) == (s[0].fg, s[0].bg)
  {
  }

  /** A level at or above every stop gives the last stop's colours unchanged. */
  lemma ColorsAtOrAboveLastStop(mix: MixFn, s: seq<GradientStop>, level: real)
    requires |s| > 0
    requires forall k :: 0 <= k < |s| ==> s[k].level <= level
    ensures ColorsAtSpec(mix, s, level) == (s[|s| - 1].fg, s[|s| - 1].bg)
  {
    assert FirstAbove(s, level) == |s|;
  }

  /**
   * When the scan stops at a stop i > 0, it brackets `level` between stops i-1 and i, which always
   * differ in level; the ratio lies in [0, 1) and both colours are mixed with it.  On a sorted section
   * stop i-1 is the last stop at or below `level` and every later stop is above it.
   */
  lemma ColorsInterpolateBetweenBracket(mix: MixFn, s: seq<GradientStop>, level: real)
    requires |s| > 0
    requires 0 < FirstAbove(s, level) < |s|
    ensures var i := FirstAbove(s, level);
      && s[i - 1].level <= level < s[i].level
      && 0.0 <= Ratio(s[i - 1], s[i], level) < 1.0
      && ColorsAtSpec(mix, s, level) == (mix(s[i - 1].fg, s[i].fg, Ratio(s[i - 1], s[i], level)),
                                          mix(s[i - 1].bg, s[i].bg, Ratio(s[i - 1], s[i], level)))
      && (SortedByLevel(s) ==> forall k :: i <= k < |s| ==> s[k].level > level)
  {
    var i := FirstAbove(s, level);
    var lo, hi := s[i - 1].level, s[i].level;
    assert 0.0 <= level - lo < hi - lo;
    RatioBounds(level - lo, hi - lo);
    if SortedByLevel(s) {
      forall k | i <= k < |s| ensures s[k].level > level {
        if k > i {
          assert s[i].level <= s[k].level;
        }
      }
    }
  }

  lemma ZeroRatio(last: GradientStop, next: GradientStop, level: real)
    requires last.level == level < next.level
    ensures next.level != last.level && Ratio(last, next, level) == 0.0
  {
  }

  lemma RatioBounds(n: real, d: real)
    requires 0.0 <= n < d
    ensures 0.0 <= n / d < 1.0
  {
  }

  /**
   * On a sorted section the scan passes every stop whose level is at most `level`, so the stop
   * before the one it ends on is at least as high as any of them.
   */
  lemma {:induction false} FirstAbovePast(s: seq<GradientStop>, level: real, j: nat)
    requires SortedByLevel(s) && j < |s| && s[j].level <= level
    ensures j < FirstAbove(s, level) && s[FirstAbove(s, level) - 1].level >= s[j].level
  {
    if j == 0 {
      var i := FirstAbove(s, level);
      if i > 1 {
        assert s[0].level <= s[i - 1].level;
      }
    } else {
      assert s[0].level <= s[j].level;
      assert SortedByLevel(s[1..]) by {
        forall a, b | 0 <= a < b < |s[1..]| ensures s[1..][a].level <= s[1..][b].level {
          assert s[1..][a] == s[a + 1] && s[1..][b] == s[b + 1];
        }
      }
      FirstAbovePast(s[1..], level, j - 1);
    }
  }

  /**
   * On a sorted section, a level equal to some stop's level resolves to the last stop at that level,
   * and when a later stop exists the interpolation ratio is exactly 0.
   */
  lemma ColorsAtStopLevel(s: seq<GradientStop>, j: nat)
    requires SortedByLevel(s) && j < |s|
    ensures var i := FirstAbove(s, s[j].level);
      && 0 < i && s[i - 1].level == s[j].level
      && (i < |s| ==> s[i].level != s[i - 1].level && Ratio(s[i - 1], s[i], s[j].level) == 0.0)
  {
    var level := s[j].level;
    var i := FirstAbove(s, level);
    FirstAbovePast(s, level, j);
    assert s[i - 1].level <= level;
    if i < |s| {
      ZeroRatio(s[i - 1], s[i], level);
    }
  }

  /**
   * When mixing with factor 0 returns the first colour (as palette's mix does), a level equal to a
   * stop's level gives exactly the colours of the last stop at that level, without interpolation drift.
   */
  lemma ColorsAtStopLevelExact(mix: MixFn, s: seq<GradientStop>, j: nat)
    requires SortedByLevel(s) && j < |s|
    requires forall x, y :: mix(x, y, 0.0) == x
    ensures var i := FirstAbove(s, s[j].level);
      0 < i && ColorsAtSpec(mix, s, s[j].level) == (s[i - 1].fg, s[i - 1].bg)
  {
    ColorsAtStopLevel(s, j);
    var i := FirstAbove(s, s[j].level);
    if i < |s| {
      assert Bracket(s, s[j].level) == (i - 1, i);
      var r := Ratio(s[i - 1], s[i], s[j].level);
      assert mix(s[i - 1].fg, s[i].fg, r) == s[i - 1].fg;
      assert mix(s[i - 1].bg, s[i].bg, r) == s[i - 1].bg;
    }
  }

  // ------------------------------------------------------------------ reference mix

  function Clamp01(t: real): (r: real)
    ensures 0.0 <= r <= 1.0
    ensures 0.0 <= t <= 1.0 ==> r == t
  {
    if t < 0.0 then 0.0 else if t > 1.0 then 1.0 else t
  }

  /** Channel-wise linear interpolation with the factor clamped to [0, 1]: palette's documented Oklab mix. */
  function Lerp(x: Oklaba, y: Oklaba, t: real): Oklaba
  {
    var f := Clamp01(t);
    Oklaba(x.l + (y.l - x.l) * f, x.a + (y.a - x.a) * f, x.b + (y.b - x.b) * f, x.alpha + (y.alpha - x.alpha) * f)
  }

  lemma HalfRatio(x: real, d: real)
    requires d > 0.0 && x == d / 2.0
    ensures x / d == 0.5
  {
  }

  function Midpoint(x: Oklaba, y: Oklaba): Oklaba
  {
    Oklaba((x.l + y.l) / 2.0, (x.a + y.a) / 2.0, (x.b + y.b) / 2.0, (x.alpha + y.alpha) / 2.0)
  }

  lemma LerpHalfIsMidpoint(x: Oklaba, y: Oklaba)
    ensures Lerp(x, y, 0.5) == Midpoint(x, y)
  {
  }

  /** Interpolation is linear: halfway between two stops gives the channel-wise midpoint of both colour pairs. */
  lemma ColorsAtMidpoint(a: GradientStop, b: GradientStop)
    requires a.level < b.level
    ensures ColorsAtSpec(Lerp, [a, b], (a.level + b.level) / 2.0) == (Midpoint(a.fg, b.fg), Midpoint(a.bg, b.bg))
  {
    var level := (a.level + b.level) / 2.0;
    var s := [a, b];
    assert FirstAbove(s[1..], level) == 0;
    assert FirstAbove(s, level) == 1;
    HalfRatio(level - a.level, b.level - a.level);
    assert Ratio(a, b, level) == 0.5;
    assert Bracket(s, level) == (0, 1);
    assert ColorsAtSpec(Lerp, s, level) == (Lerp(a.fg, b.fg, 0.5), Lerp(a.bg, b.bg, 0.5));
    LerpHalfIsMidpoint(a.fg, b.fg);
    LerpHalfIsMidpoint(a.bg, b.bg);
  }
}
