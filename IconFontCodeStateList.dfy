/** An icon-font code state list: a table of state specs, each with the
    icon-font code to show when a view's drawable state matches it, and a
    cached default code. */
module CodeStateList {
  import opened Jvm
  import opened StateSet

  /** The code of an `<item>` without a `code` attribute. */
  const DEFAULT_CODE: string := ""

  /** The table of `valueOf`: one entry whose spec is empty. */
  const EMPTY: seq<seq<Int32>> := [[]]

  /** One attribute of an `<item>`: its name resource and its boolean value. */
  datatype Attribute = Attribute(nameResource: Int32, booleanValue: bool)

  /** An `<item>` as the parser presents it: its `code` attribute, if it has
      one, and all of its attributes in document order. `inflate` turns every
      attribute into a spec entry, so an item that has a `code` attribute
      also lists it among `attributes` (with the value false). */
  datatype Item = Item(code: Option<string>, attributes: seq<Attribute>)

  /** The spec entry for one attribute: its resource id when the attribute is
      true, the negated id (Kotlin's wrapping unary minus) when it is false. */
  function SpecEntry(a: Attribute): Int32 {
    if a.booleanValue then a.nameResource else Neg(a.nameResource)
  }

  /** The spec of an item: one entry per attribute, in attribute order. */
  function ItemSpec(attributes: seq<Attribute>): seq<Int32> {
    seq(|attributes|, i requires 0 <= i < |attributes| => SpecEntry(attributes[i]))
  }

  /** The code of an item. */
  function ItemCode(item: Item): string {
    if item.code.Some? then item.code.value else DEFAULT_CODE
  }

  /** The specs and codes `inflate` collects from a list of items. */
  function ItemSpecs(items: seq<Item>): (r: seq<seq<Int32>>)
    ensures |r| == |items|
    ensures forall i :: 0 <= i < |items| ==> r[i] == ItemSpec(items[i].attributes)
  {
    if |items| == 0 then [] else ItemSpecs(items[..|items| - 1]) + [ItemSpec(items[|items| - 1].attributes)]
  }

  function ItemCodes(items: seq<Item>): (r: seq<string>)
    ensures |r| == |items|
    ensures forall i :: 0 <= i < |items| ==> r[i] == ItemCode(items[i])
  {
    if |items| == 0 then [] else ItemCodes(items[..|items| - 1]) + [ItemCode(items[|items| - 1])]
  }

  /** The per-item loop of `inflate`: fills an array with one spec entry per
      attribute and trims it to the number of entries written. */
  method BuildStateSpec(attributes: seq<Attribute>) returns (stateSpec: seq<Int32>)
    ensures stateSpec == ItemSpec(attributes)
  {
    var j := 0;
    var numAttrs := |attributes|;
    var spec := new Int32[numAttrs];
    for i := 0 to numAttrs
      invariant j == i
      invariant spec[..j] == ItemSpec(attributes)[..j]
    {
      var stateResId := attributes[i].nameResource;
      spec[j] := if attributes[i].booleanValue then stateResId else Neg(stateResId);
      assert spec[..j + 1] == spec[..j] + [spec[j]];
      j := j + 1;
    }
    var trimmed := TrimStateSet(spec, j);
    stateSpec := trimmed[..];
  }

  /** For a positive resource id, the entry of an attribute admits a set
      exactly when the attribute's value says whether the id is in it. */
  lemma EntryAdmits(a: Attribute, present: seq<Int32>)
    requires a.nameResource > 0
    ensures Admits(present, SpecEntry(a)) <==> (a.nameResource in present <==> a.booleanValue)
  {
    NegInvolution(a.nameResource);
  }

  /** With positive resource ids, an item's spec matches a state set exactly
      when each attribute's boolean value says whether its state is in the set
      (before the set's terminating 0). */
  lemma ItemSpecMeaning(attributes: seq<Attribute>, stateSet: seq<Int32>)
    requires forall i :: 0 <= i < |attributes| ==> attributes[i].nameResource > 0
    ensures SpecMatches(ItemSpec(attributes), stateSet) <==>
      forall i :: 0 <= i < |attributes| ==>
        (attributes[i].nameResource in Prefix(stateSet) <==> attributes[i].booleanValue)
  {
    var spec := ItemSpec(attributes);
    var present := Prefix(stateSet);
    assert 0 !in spec[..|spec|];
    PrefixAt(spec, |spec|);
    assert spec[..|spec|] == spec;
    forall i | 0 <= i < |attributes|
      ensures Admits(present, spec[i]) <==> (attributes[i].nameResource in present <==> attributes[i].booleanValue)
    {
      EntryAdmits(attributes[i], present);
    }
    assert SpecMatches(spec, stateSet) <==> forall i :: 0 <= i < |spec| ==> Admits(present, spec[i]);
  }

  /** The last index `1 <= i < hi` whose spec is empty, if there is one. */
  function LastEmptySpec(states: seq<seq<Int32>>, hi: nat): (r: Option<nat>)
    requires hi <= |states|
    ensures r.Some? ==> 1 <= r.value < hi && states[r.value] == []
    ensures r.Some? ==> forall i :: r.value < i < hi ==> states[i] != []
    ensures r.None? ==> forall i :: 1 <= i < hi ==> states[i] != []
  {
    if hi <= 1 then None
    else if states[hi - 1] == [] then Some(hi - 1)
    else LastEmptySpec(states, hi - 1)
  }

  /** The default code `onCodeChanged` computes. */
  function DefaultCodeOf(states: seq<seq<Int32>>, codes: seq<string>): Option<string>
    requires |codes| >= |states|
  {
    if |states| == 0 then None
    else match LastEmptySpec(states, |states|)
      case Some(i) => Some(codes[i])
      case None => Some(codes[0])
  }

  /** The default is null for an empty table, the code of the last entry
      after the first whose spec is empty, and otherwise the first code. */
  lemma DefaultCodeRule(states: seq<seq<Int32>>, codes: seq<string>)
    requires |codes| >= |states|
    ensures |states| == 0 ==> DefaultCodeOf(states, codes).None?
    ensures forall i :: (1 <= i < |states| && states[i] == [] &&
      (forall k :: i < k < |states| ==> states[k] != [])) ==> DefaultCodeOf(states, codes) == Some(codes[i])
    ensures |states| > 0 && (forall i :: 1 <= i < |states| ==> states[i] != []) ==>
      DefaultCodeOf(states, codes) == Some(codes[0])
  {
    if |states| > 0 {
      var last := LastEmptySpec(states, |states|);
      forall i | 1 <= i < |states| && states[i] == [] && (forall k :: i < k < |states| ==> states[k] != [])
        ensures DefaultCodeOf(states, codes) == Some(codes[i])
      {
        assert last.Some?;
        assert !(last.value < i) && !(i < last.value);
      }
    }
  }

  /** The default `inflate` computes on its own before `onCodeChanged`
      replaces it: the code of the last item that is the first one or has
      an empty spec. */
  function InflateDefault(states: seq<seq<Int32>>, codes: seq<string>, n: nat): Option<string>
    requires n <= |states| && |codes| >= |states|
  {
    if n == 0 then None
    else if n - 1 == 0 || |states[n - 1]| == 0 then Some(codes[n - 1])
    else InflateDefault(states, codes, n - 1)
  }

  /** `InflateDefault` looks at the first `n` entries only. */
  lemma {:induction false} InflateDefaultFrame(states: seq<seq<Int32>>, codes: seq<string>,
                                               states': seq<seq<Int32>>, codes': seq<string>, n: nat)
    requires n <= |states| && |codes| >= |states| && n <= |states'| && |codes'| >= |states'|
    requires states[..n] == states'[..n] && codes[..n] == codes'[..n]
    ensures InflateDefault(states, codes, n) == InflateDefault(states', codes', n)
  {
    if n > 0 {
      assert states[n - 1] == states[..n][n - 1] && states'[n - 1] == states'[..n][n - 1];
      assert codes[n - 1] == codes[..n][n - 1] && codes'[n - 1] == codes'[..n][n - 1];
      assert states[..n - 1] == states[..n][..n - 1] && states'[..n - 1] == states'[..n][..n - 1];
      assert codes[..n - 1] == codes[..n][..n - 1] && codes'[..n - 1] == codes'[..n][..n - 1];
      InflateDefaultFrame(states, codes, states', codes', n - 1);
    }
  }

  /** One item of `inflate`: its code becomes the default when it is the
      first item or its spec is empty. */
  lemma InflateDefaultStep(states: seq<seq<Int32>>, codes: seq<string>, spec: seq<Int32>, code: string)
    requires |states| == |codes|
    ensures InflateDefault(states + [spec], codes + [code], |states| + 1) ==
      if |states| == 0 || |spec| == 0 then Some(code) else InflateDefault(states, codes, |states|)
  {
    assert (states + [spec])[..|states|] == states[..|states|];
    assert (codes + [code])[..|states|] == codes[..|states|];
    InflateDefaultFrame(states, codes, states + [spec], codes + [code], |states|);
  }

  /** The two default rules agree, so replacing the one `inflate`
      computes changes nothing. */
  lemma {:induction false} InflateDefaultAgrees(states: seq<seq<Int32>>, codes: seq<string>, n: nat)
    requires n <= |states| && |codes| >= |states|
    ensures InflateDefault(states, codes, n) == DefaultCodeOf(states[..n], codes)
  {
    if n > 1 && states[n - 1] != [] {
      InflateDefaultAgrees(states, codes, n - 1);
      assert states[..n][..n - 1] == states[..n - 1];
      LastEmptySpecPrefix(states[..n], n - 1);
    }
  }

  /** Below an entry whose spec is not empty, looking from one entry further up changes nothing. */
  lemma {:induction false} LastEmptySpecPrefix(states: seq<seq<Int32>>, hi: nat)
    requires 1 <= hi < |states| && states[hi] != []
    ensures LastEmptySpec(states, hi + 1) == LastEmptySpec(states[..hi], hi)
  {
    if hi > 1 {
      if states[hi - 1] != [] {
        LastEmptySpecPrefix(states[..hi], hi - 1);
        assert states[..hi][..hi - 1] == states[..hi - 1];
        LastEmptySpecPrefix(states, hi - 1);
      }
    }
  }

  /** The lowest index from `i` on whose spec matches `stateSet`. */
  function FirstMatchFrom(states: seq<seq<Int32>>, stateSet: seq<Int32>, i: nat): (r: Option<nat>)
    requires i <= |states|
    ensures r.Some? ==> i <= r.value < |states| && SpecMatches(states[r.value], stateSet)
    ensures r.Some? ==> forall k :: i <= k < r.value ==> !SpecMatches(states[k], stateSet)
    ensures r.None? ==> forall k :: i <= k < |states| ==> !SpecMatches(states[k], stateSet)
    decreases |states| - i
  {
    if i == |states| then None
    else if SpecMatches(states[i], stateSet) then Some(i)
    else FirstMatchFrom(states, stateSet, i + 1)
  }

  function FirstMatch(states: seq<seq<Int32>>, stateSet: seq<Int32>): Option<nat> {
    FirstMatchFrom(states, stateSet, 0)
  }

  /** The code `getCodeForState` returns. */
  function CodeForState(states: seq<seq<Int32>>, codes: seq<string>, stateSet: seq<Int32>, defaultCode: string): string
    requires |codes| >= |states|
  {
    match FirstMatch(states, stateSet)
      case Some(i) => codes[i]
      case None => defaultCode
  }

  /** Entries after a matching one never decide the code: appending
      entries to a table that already has a match changes nothing. */
  lemma CodeForStateIgnoresLaterEntries(states: seq<seq<Int32>>, codes: seq<string>,
                                        more: seq<seq<Int32>>, moreCodes: seq<string>,
                                        stateSet: seq<Int32>, defaultCode: string)
    requires |codes| == |states| && |moreCodes| >= |more|
    requires FirstMatch(states, stateSet).Some?
    ensures CodeForState(states + more, codes + moreCodes, stateSet, defaultCode) ==
      CodeForState(states, codes, stateSet, defaultCode)
  {
    var i := FirstMatch(states, stateSet).value;
    var all := states + more;
    assert all[i] == states[i];
    forall k | 0 <= k < i
      ensures !SpecMatches(all[k], stateSet)
    {
      assert all[k] == states[k];
    }
    FirstMatchIs(all, stateSet, i);
  }

  /** Every spec in the table seen as a nullable reference, as a Kotlin
      `Array<IntArray>` reaches Java. */
  function AsNullable(states: seq<seq<Int32>>): (r: seq<Option<seq<Int32>>>)
    ensures |r| == |states|
    ensures forall i :: 0 <= i < |states| ==> r[i] == Some(states[i])
  {
    if |states| == 0 then [] else [Some(states[0])] + AsNullable(states[1..])
  }

  /** A table without null specs is scanned to its end. */
  lemma {:induction false} NonNullPrefixOfTable(states: seq<seq<Int32>>)
    ensures NonNullPrefix(AsNullable(states)) == states
  {
    if |states| > 0 {
      NonNullPrefixOfTable(states[1..]);
      assert AsNullable(states)[1..] == AsNullable(states[1..]);
    }
  }

  /** What `hasState` looks for: the state itself, or its bitwise
      complement, anywhere in any spec. */
  predicate HasStateIn(states: seq<seq<Int32>>, state: Int32) {
    exists i, k :: 0 <= i < |states| && 0 <= k < |states[i]| &&
      (states[i][k] == state || states[i][k] == Inv(state))
  }

  /** As written, a spec that forbids a state, which holds the negated id,
      does not count as referring to it: `hasState` looks for the
      complement, which is one less than the negation. */
  lemma HasStateMissesForbiddenState()
    ensures ItemSpec([Attribute(VALUE_STATE_ENABLED, false)]) == [-VALUE_STATE_ENABLED]
    ensures !HasStateIn([ItemSpec([Attribute(VALUE_STATE_ENABLED, false)])], VALUE_STATE_ENABLED)
  {
    var states := [ItemSpec([Attribute(VALUE_STATE_ENABLED, false)])];
    assert states[0] == [-VALUE_STATE_ENABLED];
  }

  /** The same miss for every positive resource id: a forbidden state holds
      the negation, which is never the complement `hasState` compares with,
      while the corrected test finds it. */
  lemma ForbiddenStateNeverFound(r: Int32)
    requires r > 0
    ensures !HasStateIn([ItemSpec([Attribute(r, false)])], r)
    ensures ReferencesState([ItemSpec([Attribute(r, false)])], r)
  {
    NegIsNotInv(r);
    var states := [ItemSpec([Attribute(r, false)])];
    assert states[0] == [Neg(r)];
    assert states[0][0] == Neg(r);
  }

  /** As written, the complement also reports a state nobody mentions: the
      forbidden ENABLED entry is the complement of WINDOW_FOCUSED, the id
      one below it. The corrected test does not report it. */
  lemma HasStateFalsePositive()
    ensures HasStateIn([ItemSpec([Attribute(VALUE_STATE_ENABLED, false)])], VALUE_STATE_WINDOW_FOCUSED)
    ensures !ReferencesState([ItemSpec([Attribute(VALUE_STATE_ENABLED, false)])], VALUE_STATE_WINDOW_FOCUSED)
  {
    var states := [ItemSpec([Attribute(VALUE_STATE_ENABLED, false)])];
    assert states[0] == [-VALUE_STATE_ENABLED];
    assert states[0][0] == Inv(VALUE_STATE_WINDOW_FOCUSED);
  }

  /** A reference to a state as the document comment of `hasState`
      describes it, with a forbidden state written as its negation. */
  predicate ReferencesState(states: seq<seq<Int32>>, state: Int32) {
    exists i, k :: 0 <= i < |states| && 0 <= k < |states[i]| &&
      (states[i][k] == state || states[i][k] == Neg(state))
  }

  /** With the negation, every attribute of every inflated item is a
      reference, whether it requires or forbids its state. */
  lemma ItemAttributesAreReferences(items: seq<Item>, i: nat, k: nat)
    requires i < |items| && k < |items[i].attributes|
    ensures ReferencesState(ItemSpecs(items), items[i].attributes[k].nameResource)
  {
    var specs := ItemSpecs(items);
    assert specs[i][k] == SpecEntry(items[i].attributes[k]);
  }

  /** The corrected test is `containsAttribute` applied to the whole table. */
  lemma ReferencesStateIsMentions(states: seq<seq<Int32>>, state: Int32)
    ensures ReferencesState(states, state) <==> exists i :: 0 <= i < |states| && Mentions(states[i], state)
  {
    if ReferencesState(states, state) {
      var i, k :| 0 <= i < |states| && 0 <= k < |states[i]| &&
        (states[i][k] == state || states[i][k] == Neg(state));
      if states[i][k] == Neg(state) {
        NegInvolution(state);
      }
      assert Mentions(states[i], state);
    }
    if exists i :: 0 <= i < |states| && Mentions(states[i], state) {
      var i :| 0 <= i < |states| && Mentions(states[i], state);
      var e :| e in states[i] && (e == state || Neg(e) == state);
      var k :| 0 <= k < |states[i]| && states[i][k] == e;
      if e != state {
        NegInvolution(e);
      }
    }
  }

  /** An icon-font code state list: parallel `states` and `codes`, and the
      default code cached from them. */
  class IconFontCodeStateList {
    var states: seq<seq<Int32>>
    var codes: seq<string>
    var defaultCode: Option<string>

    ghost predicate Valid()
      reads this
    {
      |codes| >= |states| && defaultCode == DefaultCodeOf(states, codes)
    }

    /** The public constructor: keeps both tables and computes the default. */
    constructor (states: seq<seq<Int32>>, codes: seq<string>)
      requires |codes| >= |states|
      ensures this.states == states && this.codes == codes
      ensures Valid()
    {
      this.states := states;
      this.codes := codes;
      defaultCode := None;
      new;
      OnCodeChanged();
    }

    /** `createFromXmlInner` followed by `inflate`, over the items the parser
        yields: one spec and one code per item, in document order. */
    constructor Inflate(items: seq<Item>)
      ensures states == ItemSpecs(items) && codes == ItemCodes(items)
      ensures Valid()
    {
      var defaultCode: Option<string> := None;
      var stateSpecList: seq<seq<Int32>> := [];
      var codeList: seq<string> := [];
      var listSize := 0;
      for n := 0 to |items|
        invariant listSize == n
        invariant stateSpecList == ItemSpecs(items[..n])
        invariant codeList == ItemCodes(items[..n])
        invariant defaultCode == InflateDefault(stateSpecList, codeList, n)
      {
        var baseCode := if items[n].code.Some? then items[n].code.value else DEFAULT_CODE;
        var stateSpec := BuildStateSpec(items[n].attributes);
        if listSize == 0 || |stateSpec| == 0 {
          defaultCode := Some(baseCode);
        }
        assert items[..n + 1][..n] == items[..n];
        InflateDefaultStep(stateSpecList, codeList, stateSpec, baseCode);
        codeList := codeList + [baseCode];
        stateSpecList := stateSpecList + [stateSpec];
        listSize := listSize + 1;
      }
      assert items[..|items|] == items;
      InflateDefaultAgrees(stateSpecList, codeList, listSize);
      assert stateSpecList[..listSize] == stateSpecList;
      assert defaultCode == DefaultCodeOf(stateSpecList, codeList);
      this.defaultCode := defaultCode;
      codes := codeList;
      states := stateSpecList;
      new;
      OnCodeChanged();
    }

    /** Recomputes the cached default from the tables. */
    method OnCodeChanged()
      requires |codes| >= |states|
      modifies this`defaultCode
      ensures defaultCode == DefaultCodeOf(states, codes)
    {
      var defaultCode: Option<string> := None;
      var states := this.states;
      var codes := this.codes;
      var n := |states|;
      if n > 0 {
        defaultCode := Some(codes[0]);
        var i := n - 1;
        while i >= 1
          invariant 0 <= i <= n - 1
          invariant forall k :: i < k < n ==> states[k] != []
          invariant defaultCode == Some(codes[0])
        {
          if |states[i]| == 0 {
            defaultCode := Some(codes[i]);
            break;
          }
          i := i - 1;
        }
        DefaultCodeRule(states, codes);
      }
      this.defaultCode := defaultCode;
    }

    /** Whether the first entry has a non-empty spec. When it does not, the
        first entry matches every state set, so the code never depends on
        the state. The converse fails: a first spec `[0]` is not empty but
        matches every set too (`StatefulYetConstant`). */
    function IsStateful(): (r: bool)
      reads this
      ensures !r && |states| > 0 ==> forall stateSet :: FirstMatch(states, stateSet) == Some(0)
    {
      |states| > 0 && |states[0]| > 0
    }

    /** Whether any spec mentions the focused state, as `containsAttribute` finds it. */
    method HasFocusStateSpecified() returns (r: bool)
      ensures r <==> exists i :: 0 <= i < |states| && Mentions(states[i], VALUE_STATE_FOCUSED)
    {
      NonNullPrefixOfTable(states);
      var specs := AsNullable(states);
      r := ContainsAttribute(Some(specs), VALUE_STATE_FOCUSED);
      if r {
        var spec :| spec in states && Mentions(spec, VALUE_STATE_FOCUSED);
        var i :| 0 <= i < |states| && states[i] == spec;
      }
    }

    /** The code of the first entry whose spec matches `stateSet`, or `defaultCode`. */
    method GetCodeForState(stateSet: seq<Int32>, defaultCode: string) returns (code: string)
      requires |codes| >= |states|
      ensures code == CodeForState(states, codes, stateSet, defaultCode)
    {
      for i := 0 to |states|
        invariant forall k :: 0 <= k < i ==> !SpecMatches(states[k], stateSet)
      {
        var stateSpec := states[i];
        var matches := StateSetMatches(Some(stateSpec), Some(stateSet));
        if matches {
          FirstMatchIs(states, stateSet, i);
          return codes[i];
        }
      }
      FirstMatchNone(states, stateSet);
      return defaultCode;
    }

    /** Whether some entry of some spec is `state` or `state.inv()`. */
    method HasState(state: Int32) returns (r: bool)
      ensures r <==> HasStateIn(states, state)
    {
      var stateSpecs := states;
      var specCount := |stateSpecs|;
      for specIndex := 0 to specCount
        invariant forall i, k :: 0 <= i < specIndex && 0 <= k < |stateSpecs[i]| ==>
          stateSpecs[i][k] != state && stateSpecs[i][k] != Inv(state)
      {
        var states := stateSpecs[specIndex];
        var stateCount := |states|;
        for stateIndex := 0 to stateCount
          invariant forall k :: 0 <= k < stateIndex ==> states[k] != state && states[k] != Inv(state)
        {
          if states[stateIndex] == state || states[stateIndex] == Inv(state) {
            return true;
          }
        }
      }
      return false;
    }

    /** The cached default code, as the tables determine it. */
    function GetDefaultString(): (r: Option<string>)
      reads this
      requires Valid()
      ensures r == DefaultCodeOf(states, codes)
      ensures r.None? <==> |states| == 0
    {
      defaultCode
    }

    /** A list that shows `code` whatever the state. */
    static method ValueOf(code: string) returns (list: IconFontCodeStateList)
      ensures fresh(list)
      ensures list.states == EMPTY && list.codes == [code]
      ensures list.Valid()
      ensures !list.IsStateful()
      ensures list.GetDefaultString() == Some(code)
    {
      list := new IconFontCodeStateList(EMPTY, [code]);
    }
  }

  /** The table `valueOf` builds defaults to its code and shows its code for
      every state set. */
  lemma ValueOfShowsItsCode(code: string, stateSet: seq<Int32>, defaultCode: string)
    ensures DefaultCodeOf(EMPTY, [code]) == Some(code)
    ensures CodeForState(EMPTY, [code], stateSet, defaultCode) == code
  {
    assert SpecMatches(EMPTY[0], stateSet);
  }

  /** A selected-only entry before a wildcard: the selected set shows the
      first code, any other set and the default show the wildcard's. */
  lemma SelectedThenWildcard(stateSet: seq<Int32>)
    requires VALUE_STATE_SELECTED !in Prefix(stateSet)
    ensures CodeForState([[VALUE_STATE_SELECTED], []], ["star_filled", "star_outline"], [VALUE_STATE_SELECTED], "?") == "star_filled"
    ensures CodeForState([[VALUE_STATE_SELECTED], []], ["star_filled", "star_outline"], stateSet, "?") == "star_outline"
    ensures DefaultCodeOf([[VALUE_STATE_SELECTED], []], ["star_filled", "star_outline"]) == Some("star_outline")
  {
    var states: seq<seq<Int32>> := [[VALUE_STATE_SELECTED], []];
    PrefixAt([VALUE_STATE_SELECTED], 1);
    assert SpecMatches(states[0], [VALUE_STATE_SELECTED]);
    FirstMatchIs(states, [VALUE_STATE_SELECTED], 0);
    assert states[0][0] in Prefix(states[0]);
    assert !SpecMatches(states[0], stateSet);
    assert SpecMatches(states[1], stateSet);
    FirstMatchIs(states, stateSet, 1);
  }

  /** Required and forbidden states: enabled and not pressed shows `v1`, not
      enabled shows `v2`, and only enabled and pressed falls through to the
      wildcard's `v3`. */
  lemma EnabledPressedTable()
    ensures CodeForState(
      [[VALUE_STATE_ENABLED, -VALUE_STATE_PRESSED], [-VALUE_STATE_ENABLED], []], ["v1", "v2", "v3"],
      [VALUE_STATE_ENABLED], "?") == "v1"
    ensures CodeForState(
      [[VALUE_STATE_ENABLED, -VALUE_STATE_PRESSED], [-VALUE_STATE_ENABLED], []], ["v1", "v2", "v3"],
      [], "?") == "v2"
    ensures CodeForState(
      [[VALUE_STATE_ENABLED, -VALUE_STATE_PRESSED], [-VALUE_STATE_ENABLED], []], ["v1", "v2", "v3"],
      [VALUE_STATE_ENABLED, VALUE_STATE_PRESSED], "?") == "v3"
  {
    var enabled: seq<Int32> := [VALUE_STATE_ENABLED];
    var both: seq<Int32> := [VALUE_STATE_ENABLED, VALUE_STATE_PRESSED];
    PrefixAt(enabled, 1);
    PrefixAt(both, 2);
    assert enabled[..1] == enabled && both[..2] == both;
    assert Prefix([]) == [];
    EnabledPressedAll(enabled);
    EnabledPressedAll([]);
    EnabledPressedAll(both);
  }

  /** The table of `EnabledPressedTable`, with its three specs' meaningful
      parts. */
  lemma EnabledPressedSpecs(states: seq<seq<Int32>>)
    requires states == [[VALUE_STATE_ENABLED, -VALUE_STATE_PRESSED], [-VALUE_STATE_ENABLED], []]
    ensures Prefix(states[0]) == states[0] && Prefix(states[1]) == states[1] && Prefix(states[2]) == []
  {
    PrefixAt(states[0], 2);
    PrefixAt(states[1], 1);
    assert states[0][..2] == states[0] && states[1][..1] == states[1];
  }

  /** Which entry of that table a state set selects first. */
  lemma EnabledPressedFirstMatch(states: seq<seq<Int32>>, stateSet: seq<Int32>)
    requires states == [[VALUE_STATE_ENABLED, -VALUE_STATE_PRESSED], [-VALUE_STATE_ENABLED], []]
    ensures FirstMatch(states, stateSet) ==
      if VALUE_STATE_ENABLED !in Prefix(stateSet) then Some(1)
      else if VALUE_STATE_PRESSED in Prefix(stateSet) then Some(2)
      else Some(0)
  {
    var present := Prefix(stateSet);
    EnabledPressedSpecs(states);
    if VALUE_STATE_ENABLED !in present {
      assert !Admits(present, states[0][0]);
      assert SpecMatches(states[1], stateSet);
      FirstMatchIs(states, stateSet, 1);
    } else if VALUE_STATE_PRESSED in present {
      assert !Admits(present, states[0][1]);
      assert !Admits(present, states[1][0]);
      FirstMatchIs(states, stateSet, 2);
    } else {
      assert SpecMatches(states[0], stateSet);
      FirstMatchIs(states, stateSet, 0);
    }
  }

  /** The same table on every state set: `v2` without ENABLED, `v3` with
      ENABLED and PRESSED, and `v1` with ENABLED alone. */
  lemma EnabledPressedAll(stateSet: seq<Int32>)
    ensures CodeForState(
      [[VALUE_STATE_ENABLED, -VALUE_STATE_PRESSED], [-VALUE_STATE_ENABLED], []], ["v1", "v2", "v3"],
      stateSet, "?")
      == if VALUE_STATE_ENABLED !in Prefix(stateSet) then "v2"
         else if VALUE_STATE_PRESSED in Prefix(stateSet) then "v3"
         else "v1"
  {
    EnabledPressedFirstMatch([[VALUE_STATE_ENABLED, -VALUE_STATE_PRESSED], [-VALUE_STATE_ENABLED], []], stateSet);
  }

  /** With the SELECTED-then-wildcard table, every set holding SELECTED
      shows `star_filled`. */
  lemma SelectedShowsFilled(stateSet: seq<Int32>)
    requires VALUE_STATE_SELECTED in Prefix(stateSet)
    ensures CodeForState([[VALUE_STATE_SELECTED], []], ["star_filled", "star_outline"], stateSet, "?") == "star_filled"
  {
    var states: seq<seq<Int32>> := [[VALUE_STATE_SELECTED], []];
    PrefixAt([VALUE_STATE_SELECTED], 1);
    assert [VALUE_STATE_SELECTED][..1] == [VALUE_STATE_SELECTED];
    assert SpecMatches(states[0], stateSet);
    FirstMatchIs(states, stateSet, 0);
  }

  /** Being stateful does not make the code depend on the state: a first
      spec `[0]` is not empty, yet it matches every state set. */
  lemma StatefulYetConstant(list: IconFontCodeStateList, stateSet: seq<Int32>)
    requires list.states == [[0]]
    ensures list.IsStateful()
    ensures FirstMatch(list.states, stateSet) == Some(0)
  {
    PrefixAt([0], 0);
    assert Prefix(list.states[0]) == [];
    FirstMatchIs(list.states, stateSet, 0);
  }

  lemma FirstMatchIs(states: seq<seq<Int32>>, stateSet: seq<Int32>, i: nat)
    requires i < |states| && SpecMatches(states[i], stateSet)
    requires forall k :: 0 <= k < i ==> !SpecMatches(states[k], stateSet)
    ensures FirstMatch(states, stateSet) == Some(i)
  {
    var m := FirstMatch(states, stateSet);
    assert m.Some? && !(m.value < i) && !(i < m.value);
  }

  lemma FirstMatchNone(states: seq<seq<Int32>>, stateSet: seq<Int32>)
    requires forall k :: 0 <= k < |states| ==> !SpecMatches(states[k], stateSet)
    ensures FirstMatch(states, stateSet).None?
  {
  }
}
