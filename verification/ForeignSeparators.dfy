/** Items joined by another separator than the settings have, and what is read of them. */
module ForeignSeparators {
  import opened Common
  import opened ArrayParams

  /** `separator` is no separator of the settings: it neither begins like one nor goes on
      with an integer, and within a string it decodes to one byte. */
  predicate Foreign(g: Settings, separator: Bytes) {
    && separator != [] && separator[0] != g.separator && !IsDigit(separator[0])
    && ByteAt(separator, 0).Some? && ByteAt(separator, 0).value.1 == |separator|
  }

  /** The settings expect no name in front of each item. */
  predicate Nameless(g: Settings) {
    Proper(g) && !g.runningName
  }

  // ----- strings: the length of what is read -----

  /** What reading strings from `p` on adds to the result: a byte for each encoded one, two
      quotes and a comma for each string. */
  function Weight(g: Settings, s: Bytes, p: nat): nat
    decreases |s| - p
  {
    if p >= |s| then 3
    else if Sits(s, p, SeparatorText(g)) then 3 + Weight(g, s, p + |SeparatorText(g)|)
    else 1 + Weight(g, s, if ByteAt(s, p).Some? then ByteAt(s, p).value.1 else p + 1)
  }

  lemma WeightOfByte(g: Settings, s: Bytes, p: nat)
    requires Proper(g) && p < |s| && s[p] != g.separator && ByteAt(s, p).Some?
    ensures Weight(g, s, p) == 1 + Weight(g, s, ByteAt(s, p).value.1)
  {
    SitsStart(s, p, SeparatorText(g));
    hide ByteAt;
  }

  lemma SitsStart(s: Bytes, p: nat, t: Bytes)
    requires p < |s| && t != []
    ensures Sits(s, p, t) ==> s[p] == t[0]
  {
    assert Sits(s, p, t) ==> s[p] == s[p..p + |t|][0];
  }

  lemma {:induction false} StringAdds(g: Settings, s: Bytes, p: nat, acc: Bytes)
    requires Proper(g) && p <= |s| && StringFrom(s, p, g.separator, acc).Some?
    ensures var r := StringFrom(s, p, g.separator, acc).value;
      |acc| + Weight(g, s, p) == |r.out| + Weight(g, s, r.next) && (r.next < |s| ==> s[r.next] == g.separator)
    decreases |s| - p
  {
    hide ByteAt, Weight;
    if p < |s| && s[p] != g.separator {
      WeightOfByte(g, s, p);
      StringAdds(g, s, ByteAt(s, p).value.1, acc + [ByteAt(s, p).value.0]);
    }
  }

  lemma SeparatorWeighs(g: Settings, s: Bytes, e: nat)
    requires Proper(g) && e <= |s| && (e < |s| ==> s[e] == g.separator) && SeparatorAt(g, s, e).Some?
    ensures var next := SeparatorAt(g, s, e).value;
      if e == |s| then next == e && Weight(g, s, e) == 3
      else e < next < |s| && Weight(g, s, e) == 3 + Weight(g, s, next)
  {
    if e < |s| { assert Sits(s, e, SeparatorText(g)) && SeparatorAt(g, s, e).value == e + |SeparatorText(g)|; }
  }

  /** The loop adds as much as the text weighs, and a comma comes last. */
  lemma {:induction false} ItemsAdd(g: Settings, s: Bytes, p: nat, ret: Bytes)
    requires Nameless(g) && g.items.StringItems? && p < |s| && ItemsFrom(g, s, p, ret).Some?
    ensures var t := ItemsFrom(g, s, p, ret).value;
      |t| == |ret| + Weight(g, s, p) && t != [] && t[|t| - 1] == COMMA
    decreases |s| - p
  {
    hide SeparatorAt, StringFrom, Weight;
    var r := StringFrom(s, p, g.separator, []).value;
    var next := SeparatorAt(g, s, r.next).value;
    StringAdds(g, s, p, []);
    SeparatorWeighs(g, s, r.next);
    Progress(g, s, p);
    if next < |s| { ItemsAdd(g, s, next, ret + ([QUOTE] + r.out + [QUOTE]) + [COMMA]); }
  }

  lemma ResultLength(g: Settings, s: Bytes, w: Bytes)
    requires Nameless(g) && g.items.StringItems? && w != [] && s == Lead(g) + w && Deserialized(g, s).Some?
    ensures |Deserialized(g, s).value| == 1 + Weight(g, s, |Lead(g)|)
  {
    LeadReads(g, w);
    hide ItemsFrom, Weight, SkipName, SkipChar, Peek;
    ItemsAdd(g, s, |Lead(g)|, ['[' as int]);
  }

  lemma {:induction false} ItemWeighs(g: Settings, s: Bytes, p: nat, t: Bytes, j: nat)
    requires Proper(g) && Sits(s, p, t) && j <= |t| && Decoded(t, j).Some? && forall i | 0 <= i < |t| :: t[i] != g.separator
    ensures Weight(g, s, p + j) == |Decoded(t, j).value| + Weight(g, s, p + |t|)
    decreases |t| - j
  {
    hide ByteAt, Weight;
    if j < |t| {
      SameByte(s, p, t, j);
      WeightOfByte(g, s, p + j);
      ItemWeighs(g, s, p, t, ByteAt(t, j).value.1);
    }
  }

  lemma ForeignWeighs(g: Settings, s: Bytes, e: nat, separator: Bytes)
    requires Proper(g) && Foreign(g, separator) && Sits(s, e, separator)
    ensures Weight(g, s, e) == 1 + Weight(g, s, e + |separator|)
  {
    hide ByteAt, Weight;
    SameByte(s, e, separator, 0);
    WeightOfByte(g, s, e);
  }

  lemma JoinedParts(s: Bytes, p: nat, ts: seq<Bytes>, separator: Bytes, k: nat)
    requires k < |ts| && Sits(s, p, JoinedBy(ts, separator, k)) && p + |JoinedBy(ts, separator, k)| == |s|
    ensures var e := p + |ts[k]|; var next := e + |separator|;
      && Sits(s, p, ts[k]) && (k + 1 == |ts| ==> e == |s|)
      && (k + 1 < |ts| ==>
            Sits(s, e, separator) && Sits(s, next, JoinedBy(ts, separator, k + 1))
            && next + |JoinedBy(ts, separator, k + 1)| == |s|)
  {
    JoinedStep(ts, separator, k);
    hide JoinedBy;
    if k + 1 < |ts| {
      SitsBoth(s, p, ts[k], separator + JoinedBy(ts, separator, k + 1));
      SitsBoth(s, p + |ts[k]|, separator, JoinedBy(ts, separator, k + 1));
    }
  }

  lemma JoinedStep(ts: seq<Bytes>, separator: Bytes, k: nat)
    requires k < |ts|
    ensures JoinedBy(ts, separator, k) == if k + 1 == |ts| then ts[k] else ts[k] + (separator + JoinedBy(ts, separator, k + 1))
  {
  }

  lemma OneString(g: Settings, ts: seq<Bytes>, outs: seq<Bytes>, k: nat)
    requires g.items.StringItems? && AreItems(g, ts, outs) && k < |ts|
    ensures |outs| == |ts| && Decoded(ts[k], 0).Some? && |outs[k]| == |Decoded(ts[k], 0).value| + 2
    ensures forall i | 0 <= i < |ts[k]| :: ts[k][i] != g.separator
  {
    assert IsItem(g, ts[k], outs[k]);
    hide Decoded;
  }

  lemma ListedLength(outs: seq<Bytes>, k: nat)
    requires k < |outs|
    ensures |Listed(outs, k)| == |outs[k]| + 1 + |Listed(outs, k + 1)|
    ensures Listed(outs, |outs|) == []
  {
  }

  lemma ArrayTextLength(outs: seq<Bytes>)
    requires outs != []
    ensures |ArrayText(outs)| == |Listed(outs, 0)| + 1
  {
    ListedLength(outs, 0);
    hide Listed;
  }

  lemma EndWeighs(g: Settings, s: Bytes)
    ensures Weight(g, s, |s|) == 3
  {
  }

  /** Read as one string, the list lacks the quotes and commas between its items. */
  lemma {:induction false} JoinedWeighs(g: Settings, s: Bytes, p: nat, ts: seq<Bytes>, outs: seq<Bytes>, separator: Bytes, k: nat)
    requires Proper(g) && g.items.StringItems? && Foreign(g, separator) && AreItems(g, ts, outs) && k < |ts|
    requires Sits(s, p, JoinedBy(ts, separator, k)) && p + |JoinedBy(ts, separator, k)| == |s|
    ensures |outs| == |ts| && Weight(g, s, p) + 2 * (|ts| - k - 1) == |Listed(outs, k)|
    decreases |ts| - k
  {
    hide *;
    var e := p + |ts[k]|;
    JoinedParts(s, p, ts, separator, k);
    OneString(g, ts, outs, k);
    ItemWeighs(g, s, p, ts[k], 0);
    ListedLength(outs, k);
    if k + 1 < |ts| {
      ForeignWeighs(g, s, e, separator);
      JoinedWeighs(g, s, e + |separator|, ts, outs, separator, k + 1);
    } else {
      EndWeighs(g, s);
    }
  }

  lemma StringsRunTogether(g: Settings, ts: seq<Bytes>, outs: seq<Bytes>, separator: Bytes)
    requires Nameless(g) && g.items.StringItems? && Foreign(g, separator) && ts != [] && AreItems(g, ts, outs)
    ensures |outs| == |ts|
    ensures Deserialized(g, Lead(g) + JoinedBy(ts, separator, 0)) == Some(ArrayText(outs)) ==> |ts| == 1
  {
    hide *;
    var w := JoinedBy(ts, separator, 0);
    var s := Lead(g) + w;
    AreProper(g);
    OneOfItems(g, ts, outs, 0);
    if |ts| > 1 {
      ForeignBegins(g, separator);
      JoinedNotEmpty(ts, separator);
      LeadSits(Lead(g), w);
      JoinedWeighs(g, s, |Lead(g)|, ts, outs, separator, 0);
      ArrayTextLength(outs);
      if Deserialized(g, s).Some? { ResultLength(g, s, w); }
    }
  }

  lemma AreProper(g: Settings)
    requires Nameless(g)
    ensures Proper(g)
  {
  }

  lemma JoinedNotEmpty(ts: seq<Bytes>, separator: Bytes)
    requires |ts| > 1 && separator != []
    ensures JoinedBy(ts, separator, 0) != []
  {
    JoinedStep(ts, separator, 0);
    hide JoinedBy;
  }

  // ----- other items: nothing goes on behind the first -----

  lemma FirstReads(g: Settings, s: Bytes, p: nat, t: Bytes, out: Bytes)
    requires !g.items.StringItems? && IsItem(g, t, out) && Sits(s, p, t)
    requires p + |t| < |s| ==> !IsDigit(s[p + |t|]) && (g.items.NumberItems? ==> s[p + |t|] != POINT)
    ensures ItemAt(g, s, p) == Some(Read(p + |t|, t)) && t != []
  {
    hide BooleanAt, IntegerAt, NumberAt, IsIntegerText, IsNumberText;
    OnlyStringsEmpty(g, t, out);
    match g.items
    case BooleanItems => BooleanReads(s, p, t);
    case IntegerItems => IntegerReads(s, p, t);
    case NumberItems => NumberReads(s, p, t);
  }

  lemma StopsBehind(g: Settings, s: Bytes, p: nat, item: Read, ret: Bytes)
    requires Nameless(g) && p < item.next < |s| && s[item.next] != g.separator && ItemAt(g, s, p) == Some(item)
    ensures ItemsFrom(g, s, p, ret) == None
  {
    hide ItemAt;
  }

  lemma ForeignBegins(g: Settings, separator: Bytes)
    requires Foreign(g, separator)
    ensures separator != [] && separator[0] != g.separator && !IsDigit(separator[0])
  {
  }

  lemma SeparatorSits(s: Bytes, e: nat, separator: Bytes)
    requires Sits(s, e, separator) && separator != []
    ensures e < |s| && s[e] == separator[0]
  {
    SitsAt(s, e, separator, 0);
  }

  lemma OthersStop(g: Settings, ts: seq<Bytes>, outs: seq<Bytes>, separator: Bytes)
    requires Nameless(g) && !g.items.StringItems? && Foreign(g, separator) && |ts| > 1 && AreItems(g, ts, outs)
    requires g.items.NumberItems? ==> separator[0] != POINT
    ensures Deserialized(g, Lead(g) + JoinedBy(ts, separator, 0)) == None
  {
    hide *;
    var w := JoinedBy(ts, separator, 0);
    var s, p := Lead(g) + w, |Lead(g)|;
    ForeignBegins(g, separator);
    OneOfItems(g, ts, outs, 0);
    LeadSits(Lead(g), w);
    JoinedParts(s, p, ts, separator, 0);
    SeparatorSits(s, p + |ts[0]|, separator);
    FirstReads(g, s, p, ts[0], outs[0]);
    StopsBehind(g, s, p, Read(p + |ts[0]|, ts[0]), ['[' as int]);
    RefusedItems(g, w);
  }

  lemma OneWire(g: Settings, t: Bytes, separator: Bytes)
    requires Nameless(g)
    ensures JoinedBy([t], separator, 0) == Wire(g, [t], 0)
  {
    assert [] + t == t;
  }

  /** A list joined by a foreign separator is deserialised to itself if and only if it has one
      item and that is not empty. Only a decimal point between numbers is treated apart. */
  lemma ReadExactly(g: Settings, ts: seq<Bytes>, outs: seq<Bytes>, separator: Bytes)
    requires Nameless(g) && Foreign(g, separator) && ts != [] && AreItems(g, ts, outs)
    requires g.items.NumberItems? ==> separator[0] != POINT
    ensures |outs| == |ts|
    ensures Deserialized(g, Lead(g) + JoinedBy(ts, separator, 0)) == Some(ArrayText(outs)) <==> |ts| == 1 && ts[0] != []
  {
    hide *;
    AreProper(g);
    OneOfItems(g, ts, outs, 0);
    if |ts| == 1 {
      assert ts == [ts[0]];
      OneWire(g, ts[0], separator);
      WireDeserializes(g, ts, outs);
    } else if g.items.StringItems? {
      StringsRunTogether(g, ts, outs, separator);
    } else {
      OthersStop(g, ts, outs, separator);
    }
  }
}
