/** State specs and state sets (`com.dongxiawu.uikit.StateSet`).

    A state set is an array of view-state resource ids; a state spec is an
    array of signed ids, where a positive id must be present in the set and
    a negative id names a state that must be absent.  In both, a `0` ends the
    meaningful part of the array. */
module StateSet {
  import opened Jvm

  // ---------------------------------------------------------------------
  // Matching specs against state sets
  // ---------------------------------------------------------------------

  /** The elements of `s` before its first `0` (all of `s` when it has none). */
  function Prefix(s: seq<Int32>): (r: seq<Int32>)
    ensures r <= s
    ensures 0 !in r
    ensures |r| < |s| ==> s[|r|] == 0
  {
    if |s| == 0 || s[0] == 0 then [] else [s[0]] + Prefix(s[1..])
  }

  /** A prefix without zeros that stops at a zero (or at the end) is the prefix. */
  lemma {:induction false} PrefixAt(s: seq<Int32>, j: nat)
    requires j <= |s|
    requires 0 !in s[..j]
    requires j < |s| ==> s[j] == 0
    ensures Prefix(s) == s[..j]
  {
    if j > 0 {
      assert s[0] == s[..j][0];
      assert s[1..][..j - 1] == s[..j][1..];
      PrefixAt(s[1..], j - 1);
      assert s[..j] == [s[0]] + s[1..j];
    }
  }

  /** An element met before any zero belongs to the prefix. */
  lemma {:induction false} PrefixHas(s: seq<Int32>, j: nat)
    requires j < |s|
    requires 0 !in s[..j + 1]
    ensures s[j] in Prefix(s)
  {
    assert s[0] == s[..j + 1][0];
    if j > 0 {
      assert s[1..][..j] == s[..j + 1][1..];
      PrefixHas(s[1..], j - 1);
    }
  }

  /** `isWildCard`: the spec (or set) is empty or starts with its terminator. */
  function IsWildCard(stateSetOrSpec: seq<Int32>): (r: bool)
    ensures r <==> Prefix(stateSetOrSpec) == []
  {
    |stateSetOrSpec| == 0 || stateSetOrSpec[0] == 0
  }

  /** `WILD_CARD`: the spec every state set matches. */
  const WILD_CARD: seq<Int32> := []

  /** `NOTHING`: the state set that holds no state. */
  const NOTHING: seq<Int32> := [0]

  /** One entry of a spec holds in a state set whose meaningful part is `present`:
      a positive entry must occur there, a negative entry `s` must not have
      `-s` (Java negation) there. */
  predicate Admits(present: seq<Int32>, s: Int32) {
    if s > 0 then s in present else Neg(s) !in present
  }

  /** A spec matches a (non-null) state set when every entry before the spec's
      terminator holds in the set's part before its terminator. */
  predicate SpecMatches(stateSpec: seq<Int32>, stateSet: seq<Int32>) {
    forall s :: s in Prefix(stateSpec) ==> Admits(Prefix(stateSet), s)
  }

  /** A spec whose meaningful part ends at `i` matches when its first `i` entries hold. */
  lemma AcceptsUpTo(stateSpec: seq<Int32>, stateSet: seq<Int32>, i: nat)
    requires i <= |stateSpec|
    requires 0 !in stateSpec[..i]
    requires i < |stateSpec| ==> stateSpec[i] == 0
    requires forall k :: 0 <= k < i ==> Admits(Prefix(stateSet), stateSpec[k])
    ensures SpecMatches(stateSpec, stateSet)
  {
    PrefixAt(stateSpec, i);
  }

  /** A spec fails as soon as one entry before its terminator fails. */
  lemma RejectsAt(stateSpec: seq<Int32>, stateSet: seq<Int32>, i: nat)
    requires i < |stateSpec|
    requires 0 !in stateSpec[..i + 1]
    requires !Admits(Prefix(stateSet), stateSpec[i])
    ensures !SpecMatches(stateSpec, stateSet)
  {
    PrefixHas(stateSpec, i);
  }

  /** `stateSetMatches(int[] stateSpec, int[] stateSet)`.  A null state set is
      matched only by a null or wildcard spec; a null spec against a non-null
      set makes Java throw `NullPointerException`, hence the precondition. */
  method StateSetMatches(stateSpec: Option<seq<Int32>>, stateSet: Option<seq<Int32>>)
    returns (matches: bool)
    requires stateSet.Some? ==> stateSpec.Some?
    ensures stateSet.None? ==> (matches <==> stateSpec.None? || Prefix(stateSpec.value) == [])
    ensures stateSet.Some? ==> (matches <==> SpecMatches(stateSpec.value, stateSet.value))
  {
    if stateSet.None? {
      return stateSpec.None? || IsWildCard(stateSpec.value);
    }
    var spec, states := stateSpec.value, stateSet.value;
    ghost var present := Prefix(states);
    var i := 0;
    while i < |spec|
      invariant 0 <= i <= |spec|
      invariant 0 !in spec[..i]
      invariant forall k :: 0 <= k < i ==> Admits(present, spec[k])
    {
      var stateSpecState := spec[i];
      if stateSpecState == 0 {
        // The end of the cases to match against.
        AcceptsUpTo(spec, states, i);
        return true;
      }
      assert spec[..i + 1] == spec[..i] + [spec[i]];
      var mustMatch := stateSpecState > 0;
      if !mustMatch {
        // Negative values name must-not-match states.
        stateSpecState := Neg(stateSpecState);
      }
      var found := false;
      var j := 0;
      while j < |states|
        invariant 0 <= j <= |states|
        invariant 0 !in states[..j]
        invariant stateSpecState !in states[..j]
        invariant !found
      {
        var state := states[j];
        if state == 0 {
          // The end of the states to match.
          PrefixAt(states, j);
          if mustMatch {
            RejectsAt(spec, states, i);
            return false;
          } else {
            break;
          }
        }
        assert states[..j + 1] == states[..j] + [state];
        if state == stateSpecState {
          PrefixHas(states, j);
          if mustMatch {
            found := true;
            break;
          } else {
            RejectsAt(spec, states, i);
            return false;
          }
        }
        j := j + 1;
      }
      if j == |states| {
        assert states[..j] == states;
        PrefixAt(states, j);
      }
      if mustMatch && !found {
        RejectsAt(spec, states, i);
        return false;
      }
      assert Admits(present, spec[i]);
      i := i + 1;
    }
    assert spec[..i] == spec;
    AcceptsUpTo(spec, states, i);
    return true;
  }

  /** A spec matches a single state when every entry before its terminator
      holds for that state alone: a positive entry must be the state, a
      negative entry must not be its negation. */
  predicate SpecMatchesState(stateSpec: seq<Int32>, state: Int32) {
    forall s :: s in Prefix(stateSpec) ==> if s > 0 then s == state else state != Neg(s)
  }

  /** `stateSetMatches(int[] stateSpec, int state)`. */
  method StateMatches(stateSpec: seq<Int32>, state: Int32) returns (matches: bool)
    ensures matches <==> SpecMatchesState(stateSpec, state)
  {
    var i := 0;
    while i < |stateSpec|
      invariant 0 <= i <= |stateSpec|
      invariant 0 !in stateSpec[..i]
      invariant forall k :: 0 <= k < i ==>
        if stateSpec[k] > 0 then stateSpec[k] == state else state != Neg(stateSpec[k])
    {
      var stateSpecState := stateSpec[i];
      if stateSpecState == 0 {
        PrefixAt(stateSpec, i);
        return true;
      }
      assert stateSpec[..i + 1] == stateSpec[..i] + [stateSpecState];
      if stateSpecState > 0 {
        if state != stateSpecState {
          PrefixHas(stateSpec, i);
          return false;
        }
      } else {
        if state == Neg(stateSpecState) {
          PrefixHas(stateSpec, i);
          return false;
        }
      }
      i := i + 1;
    }
    assert stateSpec[..i] == stateSpec;
    PrefixAt(stateSpec, i);
    return true;
  }

  /** Matching a single state is matching the one-element state set holding it. */
  lemma SingleStateIsSingletonSet(stateSpec: seq<Int32>, state: Int32)
    ensures SpecMatchesState(stateSpec, state) <==> SpecMatches(stateSpec, [state])
  {
    if state == 0 {
      assert Prefix([state]) == [];
    } else {
      assert Prefix([state]) == [state] by { PrefixAt([state], 1); }
    }
  }

  /** An empty spec (or any wildcard) matches every non-null state set. */
  lemma WildCardMatchesEverySet(stateSpec: seq<Int32>, stateSet: seq<Int32>)
    requires IsWildCard(stateSpec)
    ensures SpecMatches(stateSpec, stateSet)
  {
  }

  /** `NOTHING` is matched by `WILD_CARD` and by exactly the specs that only forbid states. */
  lemma NothingMatchesOnlyProhibitions(stateSpec: seq<Int32>)
    ensures SpecMatches(WILD_CARD, NOTHING)
    ensures SpecMatches(stateSpec, NOTHING) <==> forall s :: s in Prefix(stateSpec) ==> s < 0
  {
    assert Prefix(NOTHING) == [];
  }

  /** Only a wildcard matches every state set: a spec with a meaningful entry
      fails on the empty set (positive entry) or on the set holding the
      entry's negation (negative entry). */
  lemma MatchesEverySetOnlyIfWildCard(stateSpec: seq<Int32>)
    requires !IsWildCard(stateSpec)
    ensures exists stateSet :: !SpecMatches(stateSpec, stateSet)
  {
    var s := stateSpec[0];
    assert s in Prefix(stateSpec);
    if s > 0 {
      assert !SpecMatches(stateSpec, []);
    } else {
      var states := [Neg(s)];
      PrefixAt(states, 1);
      assert !SpecMatches(stateSpec, states);
    }
  }

  // ---------------------------------------------------------------------
  // Attribute search and trimming
  // ---------------------------------------------------------------------

  /** The specs of `stateSpecs` before its first null entry. */
  function NonNullPrefix(stateSpecs: seq<Option<seq<Int32>>>): (r: seq<seq<Int32>>)
    ensures |r| <= |stateSpecs|
    ensures forall i :: 0 <= i < |r| ==> stateSpecs[i] == Some(r[i])
    ensures |r| < |stateSpecs| ==> stateSpecs[|r|].None?
  {
    if |stateSpecs| == 0 || stateSpecs[0].None? then []
    else [stateSpecs[0].value] + NonNullPrefix(stateSpecs[1..])
  }

  /** `attr` occurs in `spec` either as itself or negated (Java negation). */
  predicate Mentions(spec: seq<Int32>, attr: Int32) {
    exists e :: e in spec && (e == attr || Neg(e) == attr)
  }

  /** `containsAttribute(int[][] stateSpecs, int attr)`: false for a null list;
      otherwise the specs are searched up to the first null one. */
  method ContainsAttribute(stateSpecs: Option<seq<Option<seq<Int32>>>>, attr: Int32)
    returns (contained: bool)
    ensures stateSpecs.None? ==> !contained
    ensures stateSpecs.Some? ==>
      (contained <==> exists spec :: spec in NonNullPrefix(stateSpecs.value) && Mentions(spec, attr))
  {
    if stateSpecs.Some? {
      var specs := stateSpecs.value;
      ghost var nonNull := NonNullPrefix(specs);
      var i := 0;
      while i < |specs|
        invariant 0 <= i <= |specs|
        invariant i <= |nonNull|
        invariant forall k :: 0 <= k < i ==> !Mentions(nonNull[k], attr)
      {
        if specs[i].None? {
          break;
        }
        var spec := specs[i].value;
        assert spec == nonNull[i];
        var j := 0;
        while j < |spec|
          invariant 0 <= j <= |spec|
          invariant forall k :: 0 <= k < j ==> spec[k] != attr && Neg(spec[k]) != attr
        {
          var specAttr := spec[j];
          if specAttr == attr || Neg(specAttr) == attr {
            assert specAttr in spec;
            assert Mentions(spec, attr) && spec in nonNull;
            return true;
          }
          j := j + 1;
        }
        assert !Mentions(spec, attr);
        i := i + 1;
      }
      assert i == |nonNull|;
      assert forall spec :: spec in nonNull ==> !Mentions(spec, attr);
    }
    return false;
  }

  /** `trimStateSet(int[] states, int newSize)`: the same array when it already
      has `newSize` elements, otherwise a new array holding its first
      `newSize` elements.  A size outside `0..states.length` makes Java throw
      (`new int[]` or `System.arraycopy`), hence the precondition. */
  method TrimStateSet(states: array<Int32>, newSize: int) returns (trimmed: array<Int32>)
    requires 0 <= newSize <= states.Length
    ensures states.Length == newSize ==> trimmed == states
    ensures states.Length != newSize ==> fresh(trimmed)
    ensures trimmed.Length == newSize
    ensures trimmed[..] == states[..newSize]
  {
    if states.Length == newSize {
      return states;
    }
    trimmed := new Int32[newSize];
    forall k | 0 <= k < newSize {
      trimmed[k] := states[k];
    }
  }

  // ---------------------------------------------------------------------
  // The table of drawable-state sets indexed by view-flag masks
  // ---------------------------------------------------------------------

  /** The view flags: bit `k` of a mask is `1 << k`. */
  const VIEW_STATE_WINDOW_FOCUSED: Int32 := 1
  const VIEW_STATE_SELECTED: Int32 := 2
  const VIEW_STATE_FOCUSED: Int32 := 4
  const VIEW_STATE_ENABLED: Int32 := 8
  const VIEW_STATE_PRESSED: Int32 := 16
  const VIEW_STATE_ACTIVATED: Int32 := 32
  const VIEW_STATE_ACCELERATED: Int32 := 64
  const VIEW_STATE_HOVERED: Int32 := 128
  const VIEW_STATE_DRAG_CAN_ACCEPT: Int32 := 256
  const VIEW_STATE_DRAG_HOVERED: Int32 := 512

  /** The drawable-state resource ids. */
  const VALUE_STATE_FOCUSED: Int32 := 0x0101009c
  const VALUE_STATE_WINDOW_FOCUSED: Int32 := 0x0101009d
  const VALUE_STATE_ENABLED: Int32 := 0x0101009e
  const VALUE_STATE_SELECTED: Int32 := 0x010100a1
  const VALUE_STATE_PRESSED: Int32 := 0x010100a7
  const VALUE_STATE_ACTIVATED: Int32 := 0x010102fe
  const VALUE_STATE_ACCELERATED: Int32 := 0x0101031b
  const VALUE_STATE_HOVERED: Int32 := 0x01010367
  const VALUE_STATE_DRAG_CAN_ACCEPT: Int32 := 0x01010368
  const VALUE_STATE_DRAG_HOVERED: Int32 := 0x01010369

  /** The order in which drawable states appear in every table entry. */
  const SORTED_VIEW_DRAWABLE_STATES: seq<Int32> := [
    VALUE_STATE_FOCUSED,
    VALUE_STATE_WINDOW_FOCUSED,
    VALUE_STATE_ENABLED,
    VALUE_STATE_SELECTED,
    VALUE_STATE_PRESSED,
    VALUE_STATE_ACTIVATED,
    VALUE_STATE_ACCELERATED,
    VALUE_STATE_HOVERED,
    VALUE_STATE_DRAG_CAN_ACCEPT,
    VALUE_STATE_DRAG_HOVERED
  ]

  /** (resource id, view flag) pairs, as `StateSet.java` writes them: the
      HOVERED and DRAG_HOVERED resource ids are paired with each other's flag. */
  const VIEW_STATE_IDS: seq<Int32> := [
    VALUE_STATE_WINDOW_FOCUSED, VIEW_STATE_WINDOW_FOCUSED,
    VALUE_STATE_SELECTED, VIEW_STATE_SELECTED,
    VALUE_STATE_FOCUSED, VIEW_STATE_FOCUSED,
    VALUE_STATE_ENABLED, VIEW_STATE_ENABLED,
    VALUE_STATE_PRESSED, VIEW_STATE_PRESSED,
    VALUE_STATE_ACTIVATED, VIEW_STATE_ACTIVATED,
    VALUE_STATE_ACCELERATED, VIEW_STATE_ACCELERATED,
    VALUE_STATE_DRAG_HOVERED, VIEW_STATE_HOVERED,
    VALUE_STATE_DRAG_CAN_ACCEPT, VIEW_STATE_DRAG_CAN_ACCEPT,
    VALUE_STATE_HOVERED, VIEW_STATE_DRAG_HOVERED
  ]

  /** The pairing with every resource id next to the flag of the same name. */
  const INTENDED_VIEW_STATE_IDS: seq<Int32> := [
    VALUE_STATE_WINDOW_FOCUSED, VIEW_STATE_WINDOW_FOCUSED,
    VALUE_STATE_SELECTED, VIEW_STATE_SELECTED,
    VALUE_STATE_FOCUSED, VIEW_STATE_FOCUSED,
    VALUE_STATE_ENABLED, VIEW_STATE_ENABLED,
    VALUE_STATE_PRESSED, VIEW_STATE_PRESSED,
    VALUE_STATE_ACTIVATED, VIEW_STATE_ACTIVATED,
    VALUE_STATE_ACCELERATED, VIEW_STATE_ACCELERATED,
    VALUE_STATE_HOVERED, VIEW_STATE_HOVERED,
    VALUE_STATE_DRAG_CAN_ACCEPT, VIEW_STATE_DRAG_CAN_ACCEPT,
    VALUE_STATE_DRAG_HOVERED, VIEW_STATE_DRAG_HOVERED
  ]

  /** `1 << k`. */
  function Pow2(k: nat): (r: nat)
    ensures r >= 1
  {
    if k == 0 then 1 else 2 * Pow2(k - 1)
  }

  /** Bit `k` of a non-negative `m`. */
  function Bit(m: nat, k: nat): (b: nat)
    ensures b <= 1
  {
    if k == 0 then m % 2 else Bit(m / 2, k - 1)
  }

  /** `Integer.bitCount` on a non-negative int. */
  function BitCount(m: nat): nat {
    if m == 0 then 0 else m % 2 + BitCount(m / 2)
  }

  /** The number of set bits among bits `0 .. n - 1` of `m`. */
  function LowBitCount(m: nat, n: nat): nat {
    if n == 0 then 0 else LowBitCount(m, n - 1) + Bit(m, n - 1)
  }

  /** `a & b` on non-negative ints, bit by bit from the lowest. */
  function And(a: nat, b: nat): nat {
    if a == 0 || b == 0 then 0
    else 2 * And(a / 2, b / 2) + (if a % 2 == 1 && b % 2 == 1 then 1 else 0)
  }

  /** `(m & (1 << k)) != 0` tests bit `k` of `m`. */
  lemma {:induction false} AndPow2(m: nat, k: nat)
    ensures And(m, Pow2(k)) != 0 <==> Bit(m, k) == 1
  {
    if k > 0 {
      AndPow2(m / 2, k - 1);
      if m == 0 {
        ZeroHasNoBits(k);
      }
    }
  }

  lemma {:induction false} ZeroHasNoBits(k: nat)
    ensures Bit(0, k) == 0
  {
    if k > 0 {
      ZeroHasNoBits(k - 1);
    }
  }

  lemma {:induction false} LowBitCountShift(m: nat, n: nat)
    ensures LowBitCount(m, n + 1) == m % 2 + LowBitCount(m / 2, n)
  {
    if n > 0 {
      LowBitCountShift(m, n - 1);
    }
  }

  /** Below `1 << n`, counting all bits is counting the low `n` bits. */
  lemma {:induction false} BitCountIsLowBitCount(m: nat, n: nat)
    requires m < Pow2(n)
    ensures BitCount(m) == LowBitCount(m, n)
  {
    if n > 0 {
      BitCountIsLowBitCount(m / 2, n - 1);
      LowBitCountShift(m, n - 1);
    }
  }

  /** The pair that the scan of the first `n` pairs of `ids` leaves for
      resource id `v`: the last pair whose id is `v`, or `(0, 0)` when none is. */
  function PairFor(ids: seq<Int32>, v: Int32, n: nat): (p: (Int32, Int32))
    requires 2 * n <= |ids|
  {
    if n == 0 then (0, 0)
    else if ids[2 * (n - 1)] == v then (v, ids[2 * (n - 1) + 1])
    else PairFor(ids, v, n - 1)
  }

  /** `orderedIds` from drawable state `i` on: for each drawable state in
      order, its resource id and flag as the scan of `ids` leaves them. */
  function OrderedIdsFrom(ids: seq<Int32>, sorted: seq<Int32>, i: nat): (r: seq<Int32>)
    requires |ids| % 2 == 0 && i <= |sorted|
    ensures |r| == 2 * (|sorted| - i)
    ensures forall k :: i <= k < |sorted| ==>
      (r[2 * (k - i)], r[2 * (k - i) + 1]) == PairFor(ids, sorted[k], |ids| / 2)
    decreases |sorted| - i
  {
    if i == |sorted| then []
    else
      var p := PairFor(ids, sorted[i], |ids| / 2);
      [p.0, p.1] + OrderedIdsFrom(ids, sorted, i + 1)
  }

  function OrderedIds(ids: seq<Int32>, sorted: seq<Int32>): (r: seq<Int32>)
    requires |ids| % 2 == 0
  {
    OrderedIdsFrom(ids, sorted, 0)
  }

  /** The ordered pairs the initializer builds from `VIEW_STATE_IDS`. */
  const ORDERED_IDS: seq<Int32> := [
    VALUE_STATE_FOCUSED, VIEW_STATE_FOCUSED,
    VALUE_STATE_WINDOW_FOCUSED, VIEW_STATE_WINDOW_FOCUSED,
    VALUE_STATE_ENABLED, VIEW_STATE_ENABLED,
    VALUE_STATE_SELECTED, VIEW_STATE_SELECTED,
    VALUE_STATE_PRESSED, VIEW_STATE_PRESSED,
    VALUE_STATE_ACTIVATED, VIEW_STATE_ACTIVATED,
    VALUE_STATE_ACCELERATED, VIEW_STATE_ACCELERATED,
    VALUE_STATE_HOVERED, VIEW_STATE_DRAG_HOVERED,
    VALUE_STATE_DRAG_CAN_ACCEPT, VIEW_STATE_DRAG_CAN_ACCEPT,
    VALUE_STATE_DRAG_HOVERED, VIEW_STATE_HOVERED
  ]

  /** The scan of `VIEW_STATE_IDS` yields `ORDERED_IDS`. */
  lemma OrderedIdsAsWritten()
    ensures OrderedIds(VIEW_STATE_IDS, SORTED_VIEW_DRAWABLE_STATES) == ORDERED_IDS
  {
    // The pairs of VIEW_STATE_IDS, one per line: resource id, then view flag;
    // the first assert below checks them against the named constants.
    var ids: seq<Int32> := [
      0x0101009d, 1,    // VALUE_STATE_WINDOW_FOCUSED, VIEW_STATE_WINDOW_FOCUSED
      0x010100a1, 2,    // VALUE_STATE_SELECTED, VIEW_STATE_SELECTED
      0x0101009c, 4,    // VALUE_STATE_FOCUSED, VIEW_STATE_FOCUSED
      0x0101009e, 8,    // VALUE_STATE_ENABLED, VIEW_STATE_ENABLED
      0x010100a7, 16,   // VALUE_STATE_PRESSED, VIEW_STATE_PRESSED
      0x010102fe, 32,   // VALUE_STATE_ACTIVATED, VIEW_STATE_ACTIVATED
      0x0101031b, 64,   // VALUE_STATE_ACCELERATED, VIEW_STATE_ACCELERATED
      0x01010369, 128,  // VALUE_STATE_DRAG_HOVERED, VIEW_STATE_HOVERED
      0x01010368, 256,  // VALUE_STATE_DRAG_CAN_ACCEPT, VIEW_STATE_DRAG_CAN_ACCEPT
      0x01010367, 512   // VALUE_STATE_HOVERED, VIEW_STATE_DRAG_HOVERED
    ];
    // SORTED_VIEW_DRAWABLE_STATES: FOCUSED, WINDOW_FOCUSED, ENABLED, SELECTED,
    // PRESSED, ACTIVATED, ACCELERATED, HOVERED, DRAG_CAN_ACCEPT, DRAG_HOVERED.
    var sorted: seq<Int32> := [
      0x0101009c, 0x0101009d, 0x0101009e, 0x010100a1, 0x010100a7,
      0x010102fe, 0x0101031b, 0x01010367, 0x01010368, 0x01010369];
    assert VIEW_STATE_IDS == ids;
    assert SORTED_VIEW_DRAWABLE_STATES == sorted;
    // The scan, halfway and at the end, for each drawable state.
    assert PairFor(ids, 0x0101009c, 5) == (0x0101009c, 4);
    assert PairFor(ids, 0x0101009c, 10) == (0x0101009c, 4);
    assert PairFor(ids, 0x0101009d, 5) == (0x0101009d, 1);
    assert PairFor(ids, 0x0101009d, 10) == (0x0101009d, 1);
    assert PairFor(ids, 0x0101009e, 5) == (0x0101009e, 8);
    assert PairFor(ids, 0x0101009e, 10) == (0x0101009e, 8);
    assert PairFor(ids, 0x010100a1, 5) == (0x010100a1, 2);
    assert PairFor(ids, 0x010100a1, 10) == (0x010100a1, 2);
    assert PairFor(ids, 0x010100a7, 5) == (0x010100a7, 16);
    assert PairFor(ids, 0x010100a7, 10) == (0x010100a7, 16);
    assert PairFor(ids, 0x010102fe, 5) == (0, 0);
    assert PairFor(ids, 0x010102fe, 10) == (0x010102fe, 32);
    assert PairFor(ids, 0x0101031b, 5) == (0, 0);
    assert PairFor(ids, 0x0101031b, 10) == (0x0101031b, 64);
    assert PairFor(ids, 0x01010367, 5) == (0, 0);
    assert PairFor(ids, 0x01010367, 10) == (0x01010367, 512);
    assert PairFor(ids, 0x01010368, 5) == (0, 0);
    assert PairFor(ids, 0x01010368, 10) == (0x01010368, 256);
    assert PairFor(ids, 0x01010369, 5) == (0, 0);
    assert PairFor(ids, 0x01010369, 10) == (0x01010369, 128);
    assert OrderedIdsFrom(ids, sorted, 9) == [0x01010369, 128] + OrderedIdsFrom(ids, sorted, 10);
    assert OrderedIdsFrom(ids, sorted, 8) == [0x01010368, 256] + OrderedIdsFrom(ids, sorted, 9);
    assert OrderedIdsFrom(ids, sorted, 7) == [0x01010367, 512] + OrderedIdsFrom(ids, sorted, 8);
    assert OrderedIdsFrom(ids, sorted, 6) == [0x0101031b, 64] + OrderedIdsFrom(ids, sorted, 7);
    assert OrderedIdsFrom(ids, sorted, 5) == [0x010102fe, 32] + OrderedIdsFrom(ids, sorted, 6);
    assert OrderedIdsFrom(ids, sorted, 4) == [0x010100a7, 16] + OrderedIdsFrom(ids, sorted, 5);
    assert OrderedIdsFrom(ids, sorted, 3) == [0x010100a1, 2] + OrderedIdsFrom(ids, sorted, 4);
    assert OrderedIdsFrom(ids, sorted, 2) == [0x0101009e, 8] + OrderedIdsFrom(ids, sorted, 3);
    assert OrderedIdsFrom(ids, sorted, 1) == [0x0101009d, 1] + OrderedIdsFrom(ids, sorted, 2);
    assert OrderedIdsFrom(ids, sorted, 0) == [0x0101009c, 4] + OrderedIdsFrom(ids, sorted, 1);
  }

  /** The resource id and the flag of pair `j` of an ordered table. */
  function ValueAt(ordered: seq<Int32>, j: nat): Int32
    requires 2 * j + 1 < |ordered|
  {
    ordered[2 * j]
  }

  function FlagAt(ordered: seq<Int32>, j: nat): Int32
    requires 2 * j + 1 < |ordered|
  {
    ordered[2 * j + 1]
  }

  predicate FlagsNonNegative(ordered: seq<Int32>) {
    forall j :: 0 <= j < |ordered| / 2 ==> FlagAt(ordered, j) >= 0
  }

  /** What pair `j` contributes to the state set of `mask`. */
  function Piece(ordered: seq<Int32>, mask: nat, j: nat): seq<Int32>
    requires 2 * j + 1 < |ordered| && FlagsNonNegative(ordered)
  {
    if And(mask, FlagAt(ordered, j)) != 0 then [ValueAt(ordered, j)] else []
  }

  /** The resource ids of the first `n` pairs whose flag meets `mask`, in table order. */
  function Collect(ordered: seq<Int32>, mask: nat, n: nat): seq<Int32>
    requires 2 * n <= |ordered| && FlagsNonNegative(ordered)
  {
    if n == 0 then [] else Collect(ordered, mask, n - 1) + Piece(ordered, mask, n - 1)
  }

  /** The state set stored for `mask`: what the fill loop writes into `set`. */
  function MaskStates(ordered: seq<Int32>, mask: nat): seq<Int32>
    requires |ordered| % 2 == 0 && FlagsNonNegative(ordered)
  {
    Collect(ordered, mask, |ordered| / 2)
  }

  predicate StrictlyIncreasing(s: seq<Int32>) {
    forall x, y :: 0 <= x < y < |s| ==> s[x] < s[y]
  }

  /** A resource id is collected exactly when some pair holding it has a flag that meets the mask. */
  lemma {:induction false} CollectMembers(ordered: seq<Int32>, mask: nat, n: nat, v: Int32)
    requires 2 * n <= |ordered| && FlagsNonNegative(ordered)
    ensures v in Collect(ordered, mask, n) <==>
      exists j :: 0 <= j < n && ValueAt(ordered, j) == v && And(mask, FlagAt(ordered, j)) != 0
  {
    if n > 0 {
      CollectMembers(ordered, mask, n - 1, v);
    }
  }

  /** Collected ids keep the table order, so increasing ids stay increasing. */
  lemma {:induction false} CollectIncreasing(ordered: seq<Int32>, mask: nat, n: nat)
    requires 2 * n <= |ordered| && FlagsNonNegative(ordered)
    requires forall a, b :: 0 <= a < b < |ordered| / 2 ==> ValueAt(ordered, a) < ValueAt(ordered, b)
    ensures StrictlyIncreasing(Collect(ordered, mask, n))
  {
    if n > 0 {
      CollectIncreasing(ordered, mask, n - 1);
      var prev := Collect(ordered, mask, n - 1);
      forall x | 0 <= x < |prev|
        ensures prev[x] < ValueAt(ordered, n - 1)
      {
        CollectMembers(ordered, mask, n - 1, prev[x]);
      }
    }
  }

  /** Scanning more pairs never collects fewer ids. */
  lemma {:induction false} CollectGrows(ordered: seq<Int32>, mask: nat, n: nat, n': nat)
    requires n <= n' && 2 * n' <= |ordered| && FlagsNonNegative(ordered)
    ensures |Collect(ordered, mask, n)| <= |Collect(ordered, mask, n')|
  {
    if n < n' {
      CollectGrows(ordered, mask, n, n' - 1);
    }
  }

  /** The flags are the bits `1 << 0` to `1 << 9`, and the table has `1 << 10` entries. */
  lemma FlagsArePowersOfTwo()
    ensures Pow2(0) == VIEW_STATE_WINDOW_FOCUSED && Pow2(1) == VIEW_STATE_SELECTED
    ensures Pow2(2) == VIEW_STATE_FOCUSED && Pow2(3) == VIEW_STATE_ENABLED
    ensures Pow2(4) == VIEW_STATE_PRESSED && Pow2(5) == VIEW_STATE_ACTIVATED
    ensures Pow2(6) == VIEW_STATE_ACCELERATED && Pow2(7) == VIEW_STATE_HOVERED
    ensures Pow2(8) == VIEW_STATE_DRAG_CAN_ACCEPT && Pow2(9) == VIEW_STATE_DRAG_HOVERED
    ensures Pow2(10) == 1024
  {
    assert Pow2(1) == 2;
    assert Pow2(2) == 4;
    assert Pow2(3) == 8;
    assert Pow2(4) == 16;
    assert Pow2(5) == 32;
    assert Pow2(6) == 64;
    assert Pow2(7) == 128;
    assert Pow2(8) == 256;
    assert Pow2(9) == 512;
  }

  /** The facts about `ORDERED_IDS` the table relies on: its flags are
      non-negative and its resource ids are the drawable states in order. */
  lemma OrderedIdsFacts()
    ensures |ORDERED_IDS| == 20
    ensures FlagsNonNegative(ORDERED_IDS)
    ensures forall j :: 0 <= j < 10 ==> ValueAt(ORDERED_IDS, j) == SORTED_VIEW_DRAWABLE_STATES[j]
    ensures forall a, b :: 0 <= a < b < 10 ==> ValueAt(ORDERED_IDS, a) < ValueAt(ORDERED_IDS, b)
  {
    forall j | 0 <= j < 10
      ensures FlagAt(ORDERED_IDS, j) >= 0
      ensures ValueAt(ORDERED_IDS, j) == SORTED_VIEW_DRAWABLE_STATES[j]
    {
      assert j == 0 || j == 1 || j == 2 || j == 3 || j == 4 || j == 5 || j == 6 || j == 7 || j == 8 || j == 9;
    }
    forall a, b | 0 <= a < b < 10
      ensures ValueAt(ORDERED_IDS, a) < ValueAt(ORDERED_IDS, b)
    {
      assert a == 0 || a == 1 || a == 2 || a == 3 || a == 4 || a == 5 || a == 6 || a == 7 || a == 8;
      assert b == 1 || b == 2 || b == 3 || b == 4 || b == 5 || b == 6 || b == 7 || b == 8 || b == 9;
    }
  }

  /** `1 << k` has bit `k` and no other. */
  lemma {:induction false} BitOfPow2(k: nat, j: nat)
    ensures Bit(Pow2(k), j) == if j == k then 1 else 0
  {
    if j > 0 {
      if k == 0 {
        ZeroHasNoBits(j - 1);
      } else {
        BitOfPow2(k - 1, j - 1);
        assert Pow2(k) / 2 == Pow2(k - 1);
      }
    }
  }

  /** The number of set bits of `mask` at positions `bits[0 .. n - 1]`. */
  function BitSum(mask: nat, bits: seq<nat>, n: nat): nat
    requires n <= |bits|
  {
    if n == 0 then 0 else BitSum(mask, bits, n - 1) + Bit(mask, bits[n - 1])
  }

  /** With single-bit flags, the scan collects one id per flag bit the mask has. */
  lemma {:induction false} CollectSize(ordered: seq<Int32>, bits: seq<nat>, mask: nat, n: nat)
    requires |ordered| == 2 * |bits| && FlagsNonNegative(ordered)
    requires forall j :: 0 <= j < |bits| ==> FlagAt(ordered, j) == Pow2(bits[j])
    requires n <= |bits|
    ensures |Collect(ordered, mask, n)| == BitSum(mask, bits, n)
  {
    if n > 0 {
      CollectSize(ordered, bits, mask, n - 1);
      AndPow2(mask, bits[n - 1]);
    }
  }

  /** The bit each pair of `ORDERED_IDS` carries. */
  const FLAG_BITS: seq<nat> := [2, 0, 3, 1, 4, 5, 6, 9, 8, 7]

  lemma FlagBits()
    ensures |ORDERED_IDS| == 20 && |FLAG_BITS| == 10
    ensures forall j :: 0 <= j < 10 ==> FlagAt(ORDERED_IDS, j) == Pow2(FLAG_BITS[j])
    ensures forall a, b :: 0 <= a < b < 10 ==> FLAG_BITS[a] != FLAG_BITS[b]
  {
    FlagsArePowersOfTwo();
    forall j | 0 <= j < 10
      ensures FlagAt(ORDERED_IDS, j) == Pow2(FLAG_BITS[j])
    {
      assert j == 0 || j == 1 || j == 2 || j == 3 || j == 4 || j == 5 || j == 6 || j == 7 || j == 8 || j == 9;
    }
    forall a, b | 0 <= a < b < 10
      ensures FLAG_BITS[a] != FLAG_BITS[b]
    {
      assert a == 0 || a == 1 || a == 2 || a == 3 || a == 4 || a == 5 || a == 6 || a == 7 || a == 8;
      assert b == 1 || b == 2 || b == 3 || b == 4 || b == 5 || b == 6 || b == 7 || b == 8 || b == 9;
    }
  }

  /** The flag bits of `ORDERED_IDS` are bits 0 to 9, each once. */
  lemma FlagBitsCoverLowBits(mask: nat)
    ensures BitSum(mask, FLAG_BITS, 10) == LowBitCount(mask, 10)
  {
    var b: seq<nat> := [2, 0, 3, 1, 4, 5, 6, 9, 8, 7];
    assert FLAG_BITS == b;
    assert BitSum(mask, b, 10) == BitSum(mask, b, 9) + Bit(mask, 7);
    assert BitSum(mask, b, 9) == BitSum(mask, b, 8) + Bit(mask, 8);
    assert BitSum(mask, b, 8) == BitSum(mask, b, 7) + Bit(mask, 9);
    assert BitSum(mask, b, 7) == BitSum(mask, b, 6) + Bit(mask, 6);
    assert BitSum(mask, b, 6) == BitSum(mask, b, 5) + Bit(mask, 5);
    assert BitSum(mask, b, 5) == BitSum(mask, b, 4) + Bit(mask, 4);
    assert BitSum(mask, b, 4) == BitSum(mask, b, 3) + Bit(mask, 1);
    assert BitSum(mask, b, 3) == BitSum(mask, b, 2) + Bit(mask, 3);
    assert BitSum(mask, b, 2) == BitSum(mask, b, 1) + Bit(mask, 0);
    assert BitSum(mask, b, 1) == BitSum(mask, b, 0) + Bit(mask, 2);
    assert LowBitCount(mask, 10) == LowBitCount(mask, 9) + Bit(mask, 9);
    assert LowBitCount(mask, 9) == LowBitCount(mask, 8) + Bit(mask, 8);
    assert LowBitCount(mask, 8) == LowBitCount(mask, 7) + Bit(mask, 7);
    assert LowBitCount(mask, 7) == LowBitCount(mask, 6) + Bit(mask, 6);
    assert LowBitCount(mask, 6) == LowBitCount(mask, 5) + Bit(mask, 5);
    assert LowBitCount(mask, 5) == LowBitCount(mask, 4) + Bit(mask, 4);
    assert LowBitCount(mask, 4) == LowBitCount(mask, 3) + Bit(mask, 3);
    assert LowBitCount(mask, 3) == LowBitCount(mask, 2) + Bit(mask, 2);
    assert LowBitCount(mask, 2) == LowBitCount(mask, 1) + Bit(mask, 1);
    assert LowBitCount(mask, 1) == LowBitCount(mask, 0) + Bit(mask, 0);
  }

  /** A table entry holds one resource id per set bit of its mask. */
  lemma ViewStateSetSize(mask: nat)
    requires mask < 1024
    ensures |ViewStateSet(mask)| == BitCount(mask)
  {
    OrderedIdsFacts();
    FlagBits();
    CollectSize(ORDERED_IDS, FLAG_BITS, mask, 10);
    FlagBitsCoverLowBits(mask);
    FlagsArePowersOfTwo();
    BitCountIsLowBitCount(mask, 10);
  }

  /** `VIEW_STATE_SETS[mask]` as the static initializer fills it. */
  function ViewStateSet(mask: nat): seq<Int32> {
    OrderedIdsFacts();
    MaskStates(ORDERED_IDS, mask)
  }

  /** Every entry is in drawable-state order, holds only drawable states,
      and holds a drawable state exactly when the mask has the flag bit the
      table pairs it with. */
  lemma ViewStateSetFacts(mask: nat)
    ensures StrictlyIncreasing(ViewStateSet(mask))
    ensures forall v :: v in ViewStateSet(mask) ==> v in SORTED_VIEW_DRAWABLE_STATES
    ensures forall j :: 0 <= j < 10 ==>
      (SORTED_VIEW_DRAWABLE_STATES[j] in ViewStateSet(mask) <==> Bit(mask, FLAG_BITS[j]) == 1)
  {
    OrderedIdsFacts();
    CollectIncreasing(ORDERED_IDS, mask, 10);
    forall v | v in ViewStateSet(mask)
      ensures v in SORTED_VIEW_DRAWABLE_STATES
    {
      CollectMembers(ORDERED_IDS, mask, 10, v);
    }
    FlagBits();
    forall j | 0 <= j < 10
      ensures SORTED_VIEW_DRAWABLE_STATES[j] in ViewStateSet(mask) <==> Bit(mask, FLAG_BITS[j]) == 1
    {
      CollectMembers(ORDERED_IDS, mask, 10, SORTED_VIEW_DRAWABLE_STATES[j]);
      AndPow2(mask, FLAG_BITS[j]);
    }
  }

  /** The resource id with the same name as flag `1 << k`. */
  const FLAG_STATES: seq<Int32> := [
    VALUE_STATE_WINDOW_FOCUSED,
    VALUE_STATE_SELECTED,
    VALUE_STATE_FOCUSED,
    VALUE_STATE_ENABLED,
    VALUE_STATE_PRESSED,
    VALUE_STATE_ACTIVATED,
    VALUE_STATE_ACCELERATED,
    VALUE_STATE_HOVERED,
    VALUE_STATE_DRAG_CAN_ACCEPT,
    VALUE_STATE_DRAG_HOVERED
  ]

  /** As written, flag HOVERED alone selects DRAG_HOVERED and flag
      DRAG_HOVERED alone selects HOVERED. */
  lemma HoverFlagsCrossed()
    ensures ViewStateSet(VIEW_STATE_HOVERED) == [VALUE_STATE_DRAG_HOVERED]
    ensures ViewStateSet(VIEW_STATE_DRAG_HOVERED) == [VALUE_STATE_HOVERED]
  {
    OrderedIdsFacts();
    FlagBits();
    FlagsArePowersOfTwo();
    OneFlagSelectsItsPair(ORDERED_IDS, FLAG_BITS, 9, 10);
    OneFlagSelectsItsPair(ORDERED_IDS, FLAG_BITS, 7, 10);
  }

  /** The ordered pairs the same scan builds from the intended pairing. */
  const INTENDED_ORDERED_IDS: seq<Int32> := [
    VALUE_STATE_FOCUSED, VIEW_STATE_FOCUSED,
    VALUE_STATE_WINDOW_FOCUSED, VIEW_STATE_WINDOW_FOCUSED,
    VALUE_STATE_ENABLED, VIEW_STATE_ENABLED,
    VALUE_STATE_SELECTED, VIEW_STATE_SELECTED,
    VALUE_STATE_PRESSED, VIEW_STATE_PRESSED,
    VALUE_STATE_ACTIVATED, VIEW_STATE_ACTIVATED,
    VALUE_STATE_ACCELERATED, VIEW_STATE_ACCELERATED,
    VALUE_STATE_HOVERED, VIEW_STATE_HOVERED,
    VALUE_STATE_DRAG_CAN_ACCEPT, VIEW_STATE_DRAG_CAN_ACCEPT,
    VALUE_STATE_DRAG_HOVERED, VIEW_STATE_DRAG_HOVERED
  ]

  /** The scan of the intended pair table yields `INTENDED_ORDERED_IDS`. */
  lemma OrderedIdsIntended()
    ensures OrderedIds(INTENDED_VIEW_STATE_IDS, SORTED_VIEW_DRAWABLE_STATES) == INTENDED_ORDERED_IDS
  {
    // The pairs of INTENDED_VIEW_STATE_IDS, one per line: resource id, then view flag;
    // the first assert below checks them against the named constants.
    var ids: seq<Int32> := [
      0x0101009d, 1,    // VALUE_STATE_WINDOW_FOCUSED, VIEW_STATE_WINDOW_FOCUSED
      0x010100a1, 2,    // VALUE_STATE_SELECTED, VIEW_STATE_SELECTED
      0x0101009c, 4,    // VALUE_STATE_FOCUSED, VIEW_STATE_FOCUSED
      0x0101009e, 8,    // VALUE_STATE_ENABLED, VIEW_STATE_ENABLED
      0x010100a7, 16,   // VALUE_STATE_PRESSED, VIEW_STATE_PRESSED
      0x010102fe, 32,   // VALUE_STATE_ACTIVATED, VIEW_STATE_ACTIVATED
      0x0101031b, 64,   // VALUE_STATE_ACCELERATED, VIEW_STATE_ACCELERATED
      0x01010367, 128,  // VALUE_STATE_HOVERED, VIEW_STATE_HOVERED
      0x01010368, 256,  // VALUE_STATE_DRAG_CAN_ACCEPT, VIEW_STATE_DRAG_CAN_ACCEPT
      0x01010369, 512   // VALUE_STATE_DRAG_HOVERED, VIEW_STATE_DRAG_HOVERED
    ];
    // SORTED_VIEW_DRAWABLE_STATES: FOCUSED, WINDOW_FOCUSED, ENABLED, SELECTED,
    // PRESSED, ACTIVATED, ACCELERATED, HOVERED, DRAG_CAN_ACCEPT, DRAG_HOVERED.
    var sorted: seq<Int32> := [
      0x0101009c, 0x0101009d, 0x0101009e, 0x010100a1, 0x010100a7,
      0x010102fe, 0x0101031b, 0x01010367, 0x01010368, 0x01010369];
    assert INTENDED_VIEW_STATE_IDS == ids;
    assert SORTED_VIEW_DRAWABLE_STATES == sorted;
    assert PairFor(ids, 0x0101009c, 5) == (0x0101009c, 4);
    assert PairFor(ids, 0x0101009c, 10) == (0x0101009c, 4);
    assert PairFor(ids, 0x0101009d, 5) == (0x0101009d, 1);
    assert PairFor(ids, 0x0101009d, 10) == (0x0101009d, 1);
    assert PairFor(ids, 0x0101009e, 5) == (0x0101009e, 8);
    assert PairFor(ids, 0x0101009e, 10) == (0x0101009e, 8);
    assert PairFor(ids, 0x010100a1, 5) == (0x010100a1, 2);
    assert PairFor(ids, 0x010100a1, 10) == (0x010100a1, 2);
    assert PairFor(ids, 0x010100a7, 5) == (0x010100a7, 16);
    assert PairFor(ids, 0x010100a7, 10) == (0x010100a7, 16);
    assert PairFor(ids, 0x010102fe, 5) == (0, 0);
    assert PairFor(ids, 0x010102fe, 10) == (0x010102fe, 32);
    assert PairFor(ids, 0x0101031b, 5) == (0, 0);
    assert PairFor(ids, 0x0101031b, 10) == (0x0101031b, 64);
    assert PairFor(ids, 0x01010367, 5) == (0, 0);
    assert PairFor(ids, 0x01010367, 10) == (0x01010367, 128);
    assert PairFor(ids, 0x01010368, 5) == (0, 0);
    assert PairFor(ids, 0x01010368, 10) == (0x01010368, 256);
    assert PairFor(ids, 0x01010369, 5) == (0, 0);
    assert PairFor(ids, 0x01010369, 10) == (0x01010369, 512);
    assert OrderedIdsFrom(ids, sorted, 9) == [0x01010369, 512] + OrderedIdsFrom(ids, sorted, 10);
    assert OrderedIdsFrom(ids, sorted, 8) == [0x01010368, 256] + OrderedIdsFrom(ids, sorted, 9);
    assert OrderedIdsFrom(ids, sorted, 7) == [0x01010367, 128] + OrderedIdsFrom(ids, sorted, 8);
    assert OrderedIdsFrom(ids, sorted, 6) == [0x0101031b, 64] + OrderedIdsFrom(ids, sorted, 7);
    assert OrderedIdsFrom(ids, sorted, 5) == [0x010102fe, 32] + OrderedIdsFrom(ids, sorted, 6);
    assert OrderedIdsFrom(ids, sorted, 4) == [0x010100a7, 16] + OrderedIdsFrom(ids, sorted, 5);
    assert OrderedIdsFrom(ids, sorted, 3) == [0x010100a1, 2] + OrderedIdsFrom(ids, sorted, 4);
    assert OrderedIdsFrom(ids, sorted, 2) == [0x0101009e, 8] + OrderedIdsFrom(ids, sorted, 3);
    assert OrderedIdsFrom(ids, sorted, 1) == [0x0101009d, 1] + OrderedIdsFrom(ids, sorted, 2);
    assert OrderedIdsFrom(ids, sorted, 0) == [0x0101009c, 4] + OrderedIdsFrom(ids, sorted, 1);
  }

  /** With flags that are distinct single bits, a mask made of one flag
      selects exactly the resource id paired with that flag. */
  lemma {:induction false} OneFlagSelectsItsPair(ordered: seq<Int32>, bits: seq<nat>, j0: nat, n: nat)
    requires |ordered| == 2 * |bits| && FlagsNonNegative(ordered)
    requires forall j :: 0 <= j < |bits| ==> FlagAt(ordered, j) == Pow2(bits[j])
    requires j0 < |bits| && forall j :: 0 <= j < |bits| && j != j0 ==> bits[j] != bits[j0]
    requires n <= |bits|
    ensures Collect(ordered, Pow2(bits[j0]), n) == if j0 < n then [ValueAt(ordered, j0)] else []
  {
    if n > 0 {
      OneFlagSelectsItsPair(ordered, bits, j0, n - 1);
      var mask := Pow2(bits[j0]);
      assert FlagAt(ordered, n - 1) == Pow2(bits[n - 1]);
      AndPow2(mask, bits[n - 1]);
      BitOfPow2(bits[j0], bits[n - 1]);
      assert Bit(mask, bits[n - 1]) == if n - 1 == j0 then 1 else 0;
      assert Piece(ordered, mask, n - 1) == if n - 1 == j0 then [ValueAt(ordered, j0)] else [];
    }
  }

  /** `VIEW_STATE_SETS[mask]` as the initializer would fill it from the intended pairing. */
  function IntendedViewStateSet(mask: nat): seq<Int32> {
    IntendedFlagBits();
    MaskStates(INTENDED_ORDERED_IDS, mask)
  }

  /** The bit each pair of `INTENDED_ORDERED_IDS` carries. */
  const INTENDED_FLAG_BITS: seq<nat> := [2, 0, 3, 1, 4, 5, 6, 7, 8, 9]

  lemma IntendedFlagBits()
    ensures |INTENDED_ORDERED_IDS| == 20 && FlagsNonNegative(INTENDED_ORDERED_IDS)
    ensures forall j :: 0 <= j < 10 ==> FlagAt(INTENDED_ORDERED_IDS, j) == Pow2(INTENDED_FLAG_BITS[j])
    ensures forall j :: 0 <= j < 10 ==> ValueAt(INTENDED_ORDERED_IDS, j) == FLAG_STATES[INTENDED_FLAG_BITS[j]]
    ensures forall a, b :: 0 <= a < b < 10 ==> INTENDED_FLAG_BITS[a] != INTENDED_FLAG_BITS[b]
  {
    FlagsArePowersOfTwo();
    forall j | 0 <= j < 10
      ensures FlagAt(INTENDED_ORDERED_IDS, j) == Pow2(INTENDED_FLAG_BITS[j])
      ensures ValueAt(INTENDED_ORDERED_IDS, j) == FLAG_STATES[INTENDED_FLAG_BITS[j]]
    {
      assert j == 0 || j == 1 || j == 2 || j == 3 || j == 4 || j == 5 || j == 6 || j == 7 || j == 8 || j == 9;
    }
    forall a, b | 0 <= a < b < 10
      ensures INTENDED_FLAG_BITS[a] != INTENDED_FLAG_BITS[b]
    {
      assert a == 0 || a == 1 || a == 2 || a == 3 || a == 4 || a == 5 || a == 6 || a == 7 || a == 8;
      assert b == 1 || b == 2 || b == 3 || b == 4 || b == 5 || b == 6 || b == 7 || b == 8 || b == 9;
    }
  }

  /** With the intended pairing, the flag of pair `j` alone selects the id of pair `j`. */
  lemma IntendedPairSelectedAlone(j: nat)
    requires j < 10
    ensures IntendedViewStateSet(Pow2(INTENDED_FLAG_BITS[j])) == [FLAG_STATES[INTENDED_FLAG_BITS[j]]]
  {
    IntendedFlagBits();
    OneFlagSelectsItsPair(INTENDED_ORDERED_IDS, INTENDED_FLAG_BITS, j, 10);
  }

  /** With the intended pairing, every single flag selects the drawable state of its own name. */
  lemma SingleFlagsIntended()
    ensures forall k :: 0 <= k < 10 ==> IntendedViewStateSet(Pow2(k)) == [FLAG_STATES[k]]
  {
    forall k | 0 <= k < 10
      ensures IntendedViewStateSet(Pow2(k)) == [FLAG_STATES[k]]
    {
      var j := if k == 0 then 1 else if k == 1 then 3 else if k == 2 then 0 else if k == 3 then 2 else k;
      assert INTENDED_FLAG_BITS[j] == k;
      IntendedPairSelectedAlone(j);
    }
  }


  /** A sequence that holds, pair by pair, what `PairFor` leaves for each
      drawable state is the ordered table. */
  lemma PairsMakeOrderedIds(a: seq<Int32>, ids: seq<Int32>, sorted: seq<Int32>)
    requires |ids| % 2 == 0 && |a| == |ids| == 2 * |sorted|
    requires forall k :: 0 <= k < |sorted| ==> (a[2 * k], a[2 * k + 1]) == PairFor(ids, sorted[k], |ids| / 2)
    ensures a == OrderedIds(ids, sorted)
  {
    var spec := OrderedIds(ids, sorted);
    forall k | 0 <= k < |ids|
      ensures a[k] == spec[k]
    {
      var p := k / 2;
      assert k == 2 * p || k == 2 * p + 1;
      assert (a[2 * p], a[2 * p + 1]) == PairFor(ids, sorted[p], |ids| / 2);
      assert (spec[2 * (p - 0)], spec[2 * (p - 0) + 1]) == PairFor(ids, sorted[p], |ids| / 2);
    }
  }

  /** The first loop of the static initializer: the pairs of `ids`
      rearranged into the order of `sorted`. */
  method OrderedIdsOf(ids: seq<Int32>, sorted: seq<Int32>) returns (orderedIds: array<Int32>)
    requires |ids| % 2 == 0 && |ids| / 2 == |sorted|
    ensures orderedIds[..] == OrderedIds(ids, sorted)
  {
    orderedIds := new Int32[|ids|](_ => 0);
    var i := 0;
    while i < |sorted|
      invariant 0 <= i <= |sorted|
      invariant forall k :: 0 <= k < i ==>
        (orderedIds[2 * k], orderedIds[2 * k + 1]) == PairFor(ids, sorted[k], |ids| / 2)
      invariant forall k :: 2 * i <= k < |ids| ==> orderedIds[k] == 0
    {
      var viewState := sorted[i];
      var j := 0;
      ghost var n := 0;
      while j < |ids|
        invariant 0 <= j <= |ids| && j == 2 * n
        invariant (orderedIds[2 * i], orderedIds[2 * i + 1]) == PairFor(ids, viewState, n)
        invariant forall k :: 0 <= k < i ==>
          (orderedIds[2 * k], orderedIds[2 * k + 1]) == PairFor(ids, sorted[k], |ids| / 2)
        invariant forall k :: 2 * i + 2 <= k < |ids| ==> orderedIds[k] == 0
      {
        if ids[j] == viewState {
          orderedIds[i * 2] := viewState;
          orderedIds[i * 2 + 1] := ids[j + 1];
        }
        j := j + 2;
        n := n + 1;
      }
      i := i + 1;
    }
    PairsMakeOrderedIds(orderedIds[..], ids, sorted);
  }

  /** One step of the scan, in terms of the pair's id and flag. */
  lemma CollectStep(ordered: seq<Int32>, mask: nat, n: nat, value: Int32, flag: Int32)
    requires 2 * n + 1 < |ordered| && FlagsNonNegative(ordered)
    requires ordered[2 * n] == value && ordered[2 * n + 1] == flag
    ensures flag >= 0
    ensures Collect(ordered, mask, n + 1) ==
      Collect(ordered, mask, n) + if And(mask, flag) != 0 then [value] else []
    ensures |Collect(ordered, mask, n + 1)| <= |Collect(ordered, mask, |ordered| / 2)|
  {
    assert FlagAt(ordered, n) == flag;
    CollectGrows(ordered, mask, n + 1, |ordered| / 2);
  }

  /** One pass of the second loop of the static initializer: the resource
      id of every pair whose flag meets `mask`, in table order. */
  method MaskStatesOf(orderedIds: array<Int32>, mask: nat) returns (stateSet: seq<Int32>)
    requires orderedIds.Length % 2 == 0 && FlagsNonNegative(orderedIds[..])
    requires |MaskStates(orderedIds[..], mask)| == BitCount(mask)
    ensures stateSet == MaskStates(orderedIds[..], mask)
  {
    ghost var ordered := orderedIds[..];
    ghost var half := |ordered| / 2;
    assert orderedIds.Length == 2 * half;
    var numBits := BitCount(mask);
    var entry := new Int32[numBits];
    var pos := 0;
    var j := 0;
    ghost var n := 0;
    while j < orderedIds.Length
      invariant 0 <= n <= half && j == 2 * n
      invariant pos == |Collect(ordered, mask, n)| <= numBits
      invariant entry[..pos] == Collect(ordered, mask, n)
      modifies entry
    {
      CollectStep(ordered, mask, n, orderedIds[j], orderedIds[j + 1]);
      if And(mask, orderedIds[j + 1]) != 0 {
        entry[pos] := orderedIds[j];
        assert entry[..pos + 1] == entry[..pos] + [orderedIds[j]];
        pos := pos + 1;
      }
      j := j + 2;
      n := n + 1;
    }
    assert n == half;
    assert entry[..] == entry[..pos];
    stateSet := entry[..];
  }

  /** The second loop of the static initializer: one state set per mask below `1 << NUM_BITS`. */
  method BuildViewStateSets(orderedIds: array<Int32>) returns (viewStateSets: array<seq<Int32>>)
    requires orderedIds[..] == ORDERED_IDS
    ensures viewStateSets.Length == 1024
    ensures forall mask :: 0 <= mask < 1024 ==> viewStateSets[mask] == ViewStateSet(mask)
  {
    FlagsArePowersOfTwo();
    var numBits := orderedIds.Length / 2;
    viewStateSets := new seq<Int32>[Pow2(numBits)];
    var i := 0;
    while i < viewStateSets.Length
      invariant 0 <= i <= viewStateSets.Length == 1024
      invariant forall mask :: 0 <= mask < i ==> viewStateSets[mask] == ViewStateSet(mask)
    {
      ViewStateSetSize(i);
      var stateSet := MaskStatesOf(orderedIds, i);
      viewStateSets[i] := stateSet;
      i := i + 1;
    }
  }

  /** `VIEW_STATE_SETS`, filled once by the static initializer and read by `get`. */
  class ViewStateSets {
    var viewStateSets: array<seq<Int32>>

    ghost predicate Valid()
      reads this, viewStateSets
    {
      viewStateSets.Length == 1024 &&
      forall mask :: 0 <= mask < 1024 ==> viewStateSets[mask] == ViewStateSet(mask)
    }

    /** The static initializer. Its length check cannot fail on these tables. */
    constructor ()
      ensures Valid()
    {
      assert |VIEW_STATE_IDS| / 2 == |SORTED_VIEW_DRAWABLE_STATES|;
      var orderedIds := OrderedIdsOf(VIEW_STATE_IDS, SORTED_VIEW_DRAWABLE_STATES);
      OrderedIdsAsWritten();
      var sets := BuildViewStateSets(orderedIds);
      viewStateSets := sets;
    }

    /** The state set of a mask of view flags. */
    method Get(mask: Int32) returns (r: Result<seq<Int32>>)
      requires Valid()
      ensures mask >= 1024 ==> r == Throws(IllegalArgument("Invalid state set mask"))
      ensures mask < 0 ==> r == Throws(ArrayIndexOutOfBounds)
      ensures 0 <= mask < 1024 ==> r == Ok(ViewStateSet(mask))
    {
      if mask >= viewStateSets.Length {
        return Throws(IllegalArgument("Invalid state set mask"));
      }
      if mask < 0 {
        return Throws(ArrayIndexOutOfBounds);
      }
      return Ok(viewStateSets[mask]);
    }
  }
}
