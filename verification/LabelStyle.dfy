/** The label style without explode, where items are expected between commas, not dots. */
module LabelStyle {
  import opened Common
  import opened ArrayParams
  import opened ForeignSeparators

  const DOTS: Bytes := [POINT]

  function Unexploded(name: Bytes, items: ItemType): Settings {
    SettingsFor(ParamStyle.Label, false, name, items)
  }

  /** Items separated by dots, as with explode. Up to version 3.0.3 of the OpenAPI
      Specification the Style Values table spells the array so without explode, too; since
      version 3.0.4 it has the commas the deserialiser expects. */
  function Dotted(name: Bytes, ts: seq<Bytes>): Bytes
    requires ts != []
  {
    StyleText(ParamStyle.Label, true, name, ts)
  }

  lemma DottedIsPlain(name: Bytes, ts: seq<Bytes>)
    requires ts != []
    ensures Dotted(name, ts) == DOTS + JoinedBy(ts, DOTS, 0)
  {
  }

  lemma Commas(name: Bytes, items: ItemType)
    ensures var g := Unexploded(name, items); Nameless(g) && Foreign(g, DOTS) && Lead(g) == DOTS && g.items == items
  {
  }

  // ----- numbers: the first dot is taken for a decimal point -----

  lemma NumberList(name: Bytes, ts: seq<Bytes>, outs: seq<Bytes>)
    requires AreItems(Unexploded(name, NumberItems), ts, outs)
    ensures outs == ts && forall i | 0 <= i < |ts| :: IsNumberText(ts[i])
    ensures var g := Unexploded(name, NumberItems); IsLabel(g) && g.items.NumberItems?
  {
    var g := Unexploded(name, NumberItems);
    forall i | 0 <= i < |ts| ensures IsItem(g, ts[i], outs[i]) && IsNumberText(ts[i]) && outs[i] == ts[i] {}
  }

  lemma NumberNotEmpty(t: Bytes)
    requires IsNumberText(t)
    ensures t != []
  {
  }

  predicate IsLabel(g: Settings) {
    g.start == POINT && !g.skipName && !g.runningName
  }

  /** What is read at the first of several numbers between dots, if anything: it and a point. */
  lemma FirstNumber(s: Bytes, p: nat, t: Bytes)
    requires Sits(s, p, t) && IsNumberText(t) && p + |t| < |s| && s[p + |t|] == POINT
    ensures var item := NumberAt(s, p); item.Some? ==> t + DOTS <= item.value.out && |item.value.out| > |t| + 1
  {
    ScanItem(s, p, t);
    var e := p + |t|;
    assert s[p] == s[p..e][0];
    ScanPoint(s, e, HasPoint(t));
    hide NumberScan, HasPoint;
    if NumberAt(s, p).Some? {
      var out := NumberAt(s, p).value.out;
      assert out[..|t|] == s[p..e] == t && out[|t|] == s[e];
      assert out[..|t| + 1] == t + DOTS;
      assert out[|out| - 1] != POINT;
    }
  }

  lemma ScanPoint(s: Bytes, e: nat, point: bool)
    requires e < |s| && s[e] == POINT
    ensures var r := NumberScan(s, e, point); r.Some? ==> e < r.value.0 && r.value.1
  {
    if !point { ScanKeepsPoint(s, e + 1); }
  }

  lemma {:induction false} ScanKeepsPoint(s: Bytes, p: nat)
    requires p <= |s|
    ensures NumberScan(s, p, true).Some? ==> NumberScan(s, p, true).value.1
    decreases |s| - p
  {
    if p < |s| { ScanKeepsPoint(s, p + 1); }
  }

  /** The loop only ever appends. */
  lemma {:induction false} LoopAppends(g: Settings, s: Bytes, p: nat, ret: Bytes)
    requires p <= |s| && ItemsFrom(g, s, p, ret).Some?
    ensures ret <= ItemsFrom(g, s, p, ret).value
    decreases |s| - p
  {
    hide NameAt, ItemAt, SeparatorAt;
    if p < |s| {
      var item := ItemAt(g, s, NameAt(g, s, p).value).value;
      Progress(g, s, p);
      LoopAppends(g, s, SeparatorAt(g, s, item.next).value, ret + item.out + [COMMA]);
    }
  }

  /** A label array of several numbers between dots is never read back, whatever the
      separator of the settings. */
  lemma NumbersRunTogether(g: Settings, ts: seq<Bytes>)
    requires g.items.NumberItems? && IsLabel(g) && |ts| > 1 && forall i | 0 <= i < |ts| :: IsNumberText(ts[i])
    ensures Deserialized(g, DOTS + JoinedBy(ts, DOTS, 0)) != Some(ArrayText(ts))
  {
    hide *;
    var s := DOTS + JoinedBy(ts, DOTS, 0);
    DotsSit(ts, s);
    JoinedParts(s, 1, ts, DOTS, 0);
    SitsAt(s, 1 + |ts[0]|, DOTS, 0);
    FirstNumber(s, 1, ts[0]);
    TwoListed(ts);
    if Deserialized(g, s).Some? {
      FirstStays(g, s, ts[0]);
    }
  }

  lemma DotsSit(ts: seq<Bytes>, s: Bytes)
    requires ts != [] && s == DOTS + JoinedBy(ts, DOTS, 0)
    ensures Sits(s, 1, JoinedBy(ts, DOTS, 0)) && 1 + |JoinedBy(ts, DOTS, 0)| == |s|
    ensures COMMA != POINT && |DOTS| == 1 && DOTS[0] == POINT
  {
    hide JoinedBy;
    assert s[1..1 + |JoinedBy(ts, DOTS, 0)|] == JoinedBy(ts, DOTS, 0);
  }

  lemma FirstStays(g: Settings, s: Bytes, t: Bytes)
    requires g.items.NumberItems? && IsLabel(g) && |s| > 1 && Deserialized(g, s).Some?
    requires NumberAt(s, 1).Some? ==> t + DOTS <= NumberAt(s, 1).value.out && |NumberAt(s, 1).value.out| > |t| + 1
    ensures |Deserialized(g, s).value| > |t| + 2 && Deserialized(g, s).value[|t| + 1] == POINT
  {
    var open := ['[' as int];
    hide NumberAt, SeparatorAt;
    var item := NumberAt(s, 1).value;
    var next := SeparatorAt(g, s, item.next).value;
    Progress(g, s, 1);
    assert ItemsFrom(g, s, 1, open) == ItemsFrom(g, s, next, open + item.out + [COMMA]);
    LoopAppends(g, s, next, open + item.out + [COMMA]);
    hide ItemsFrom;
    var all := ItemsFrom(g, s, next, open + item.out + [COMMA]).value;
    assert item.out[|t|] == POINT;
    assert all[|t| + 1] == (open + item.out + [COMMA])[|t| + 1] == item.out[|t|];
  }

  lemma TwoListed(ts: seq<Bytes>)
    requires |ts| > 1
    ensures |ArrayText(ts)| > |ts[0]| + 2 && ArrayText(ts)[|ts[0]| + 1] == COMMA
  {
    ListedLength(ts, 0);
    ListedLength(ts, 1);
    assert Listed(ts, 0) == ts[0] + [COMMA] + Listed(ts, 1);
    hide Listed;
    var t := Listed(ts, 0);
    assert t[|ts[0]|] == COMMA && t[..|t| - 1][|ts[0]|] == COMMA;
  }

  /** With explode, too, a label array of numbers is read back if and only if it has one: the
      separator is the decimal point. */
  lemma ExplodedNumbers(name: Bytes, ts: seq<Bytes>)
    requires ts != [] && forall i | 0 <= i < |ts| :: IsNumberText(ts[i])
    ensures var g := SettingsFor(ParamStyle.Label, true, name, NumberItems);
      (Deserialized(g, StyleText(ParamStyle.Label, true, name, ts)) == Some(ArrayText(ts))) <==> |ts| == 1
  {
    var g := SettingsFor(ParamStyle.Label, true, name, NumberItems);
    assert IsLabel(g) && g.items.NumberItems?;
    DottedIsPlain(name, ts);
    if |ts| == 1 {
      OneNumber(g, ts);
    } else {
      NumbersRunTogether(g, ts);
    }
    hide Deserialized, ArrayText, StyleText, JoinedBy, IsNumberText;
  }

  lemma OneNumber(g: Settings, ts: seq<Bytes>)
    requires g.items.NumberItems? && IsLabel(g) && |ts| == 1 && IsNumberText(ts[0])
    ensures Deserialized(g, DOTS + JoinedBy(ts, DOTS, 0)) == Some(ArrayText(ts))
  {
    var t, open := ts[0], ['[' as int];
    JoinedStep(ts, DOTS, 0);
    var s := DOTS + t;
    assert s[1..1 + |t|] == t;
    NumberReads(s, 1, t);
    hide NumberAt, JoinedBy;
    UnfoldItems(g, s, 1, open, Read(|s|, t), |s|);
    NothingMore(g, s, open + t + [COMMA]);
    ListedLength(ts, 0);
    assert Listed(ts, 0) == t + [COMMA];
    assert Lead(g) == DOTS;
    assert open + t + [COMMA] == open + (t + [COMMA]);
    hide ItemsFrom, Listed, IsNumberText;
    BracketedItems(g, t, t + [COMMA]);
    assert (t + [COMMA])[..|t|] == t;
    AsArray(ts);
  }

  /** Without explode, an array spelled with dots is deserialised to itself exactly when it
      has one item and that is not empty. */
  lemma DottedLabel(name: Bytes, items: ItemType, ts: seq<Bytes>, outs: seq<Bytes>)
    requires ts != [] && AreItems(Unexploded(name, items), ts, outs)
    ensures |outs| == |ts|
    ensures Deserialized(Unexploded(name, items), Dotted(name, ts)) == Some(ArrayText(outs)) <==> |ts| == 1 && ts[0] != []
  {
    hide *;
    Commas(name, items);
    DottedIsPlain(name, ts);
    if items.NumberItems? {
      NumberList(name, ts, outs);
      if |ts| == 1 { OneNumber(Unexploded(name, items), ts); } else { NumbersRunTogether(Unexploded(name, items), ts); }
      NumberNotEmpty(ts[0]);
    } else {
      ReadExactly(Unexploded(name, items), ts, outs, DOTS);
    }
  }

  /** For instance `.1.2`, which is not read at all. */
  lemma TwoIntegersLost(name: Bytes)
    ensures var one, two: Bytes := ['1' as int], ['2' as int];
      && AreItems(Unexploded(name, IntegerItems), [one, two], [one, two])
      && Dotted(name, [one, two]) == [POINT, '1' as int, POINT, '2' as int]
      && Deserialized(Unexploded(name, IntegerItems), Dotted(name, [one, two])) == None
  {
    var one, two: Bytes := ['1' as int], ['2' as int];
    assert IsIntegerText(one) && IsIntegerText(two);
    Commas(name, IntegerItems);
    DottedIsPlain(name, [one, two]);
    OthersStop(Unexploded(name, IntegerItems), [one, two], [one, two], DOTS);
    DottedTwo(one, two);
    hide Deserialized;
  }

  lemma DottedTwo(one: Bytes, two: Bytes)
    ensures JoinedBy([one, two], DOTS, 0) == one + (DOTS + two)
  {
    JoinedStep([one, two], DOTS, 0);
    JoinedStep([one, two], DOTS, 1);
  }

  /** With explode `.1.2` is the text of the numbers 1 and 2, and read as the one number 1.2. */
  lemma TwoNumbersRunTogether(name: Bytes)
    ensures var one, two: Bytes := ['1' as int], ['2' as int];
      var s: Bytes := [POINT, '1' as int, POINT, '2' as int];
      && IsNumberText(one) && IsNumberText(two) && StyleText(ParamStyle.Label, true, name, [one, two]) == s
      && Deserialized(SettingsFor(ParamStyle.Label, true, name, NumberItems), s) == Some(ArrayText([s[1..]]))
  {
    var one, two: Bytes := ['1' as int], ['2' as int];
    var number: Bytes := ['1' as int, POINT, '2' as int];
    var g := SettingsFor(ParamStyle.Label, true, name, NumberItems);
    assert IsLabel(g) && g.items == NumberItems && IsNumberText(number) && IsNumberText(one) && IsNumberText(two);
    hide *;
    DottedIsPlain(name, [one, two]);
    DottedTwo(one, two);
    JoinedStep([number], DOTS, 0);
    OneNumber(g, [number]);
    assert one + (DOTS + two) == number && (DOTS + number)[1..] == number;
  }
}
