/** The space and pipe delimited styles without explode, in the other spellings of the table. */
module DelimitedStyles {
  import opened Common
  import opened ArrayParams
  import opened ForeignSeparators

  /** The pipe as version 3.0.4 of the OpenAPI Specification has it between two items. */
  const ENCODED_PIPE: Bytes := [PERCENT, '7' as int, 'C' as int]

  predicate IsDelimited(style: ParamStyle) {
    style.SpaceDelim? || style.PipeDelim?
  }

  function Delimited(style: ParamStyle, name: Bytes, items: ItemType): Settings {
    SettingsFor(style, false, name, items)
  }

  // ----- percent-encoded pipes -----

  lemma Pipes(name: Bytes, items: ItemType)
    ensures var g := Delimited(PipeDelim, name, items);
      && Nameless(g) && Foreign(g, ENCODED_PIPE) && Lead(g) == name + [EQUALS] && g.items == items
      && ENCODED_PIPE[0] != POINT
  {
    assert [] + (name + [EQUALS]) == name + [EQUALS];
  }

  /** Joined by percent-encoded pipes, an array is deserialised to itself if and only if it has
      one item, not empty: strings run together, and behind another item nothing is accepted. */
  lemma EncodedPipes(name: Bytes, items: ItemType, ts: seq<Bytes>, outs: seq<Bytes>)
    requires ts != [] && AreItems(Delimited(PipeDelim, name, items), ts, outs)
    ensures |outs| == |ts|
    ensures var s := name + [EQUALS] + JoinedBy(ts, ENCODED_PIPE, 0);
      Deserialized(Delimited(PipeDelim, name, items), s) == Some(ArrayText(outs)) <==> |ts| == 1 && ts[0] != []
  {
    hide *;
    Pipes(name, items);
    ReadExactly(Delimited(PipeDelim, name, items), ts, outs, ENCODED_PIPE);
  }

  // ----- no name in front -----

  /** The loop starts right behind an equals sign, if at all. */
  lemma StartsBehindEquals(g: Settings, s: Bytes)
    requires g.start == 0 && g.skipName && !g.runningName && Deserialized(g, s).Some?
    ensures |g.name| + 1 < |s| && s[|g.name|] == EQUALS
    ensures ItemsFrom(g, s, |g.name| + 1, ['[' as int]).Some?
    ensures var t := ItemsFrom(g, s, |g.name| + 1, ['[' as int]).value;
      t != [] && t[|t| - 1] == COMMA ==> |Deserialized(g, s).value| == |t|
  {
    hide ItemsFrom;
  }

  /** A text weighs more than any part of it behind an equals sign. */
  lemma {:induction false} WeightFalls(g: Settings, s: Bytes, p: nat, q: nat)
    requires Proper(g) && g.separator != EQUALS && p < q <= |s| && s[q - 1] == EQUALS
    ensures Weight(g, s, p) > Weight(g, s, q)
    decreases q - p
  {
    var t := SeparatorText(g);
    if Sits(s, p, t) {
      forall i | p <= i < p + |t| ensures s[i] != EQUALS { SitsAt(s, p, t, i - p); }
      assert p + |t| < q;
      hide Sits, SeparatorText;
      WeightFalls(g, s, p + |t|, q);
    } else {
      var next := if ByteAt(s, p).Some? then ByteAt(s, p).value.1 else p + 1;
      assert next <= q;
      hide Sits, SeparatorText, ByteAt;
      if next < q { WeightFalls(g, s, next, q); }
    }
  }

  lemma {:induction false} NoEquals(g: Settings, ts: seq<Bytes>, outs: seq<Bytes>, separator: Bytes, k: nat)
    requires !g.items.StringItems? && AreItems(g, ts, outs) && k < |ts| && EQUALS !in separator
    ensures EQUALS !in JoinedBy(ts, separator, k)
    decreases |ts| - k
  {
    assert IsItem(g, ts[k], outs[k]);
    assert EQUALS !in ts[k];
    hide IsItem, AreItems;
    if k + 1 < |ts| { NoEquals(g, ts, outs, separator, k + 1); }
  }

  lemma Names(style: ParamStyle, name: Bytes, items: ItemType)
    requires IsDelimited(style)
    ensures var g := Delimited(style, name, items);
      && Nameless(g) && Proper(g) && g.start == 0 && g.skipName && !g.runningName && g.separator != EQUALS
      && EQUALS !in SeparatorText(g) && g.items == items && g.name == name
  {
  }

  /** Without the name in front, as the versions before 3.0.4 spell both styles, no array is
      deserialised to itself. */
  lemma MissingName(style: ParamStyle, name: Bytes, items: ItemType, ts: seq<Bytes>, outs: seq<Bytes>)
    requires IsDelimited(style) && ts != [] && AreItems(Delimited(style, name, items), ts, outs)
    ensures |outs| == |ts|
    ensures var g := Delimited(style, name, items);
      Deserialized(g, JoinedBy(ts, SeparatorText(g), 0)) != Some(ArrayText(outs))
  {
    hide *;
    var g := Delimited(style, name, items);
    var s := JoinedBy(ts, SeparatorText(g), 0);
    Names(style, name, items);
    OneOfItems(g, ts, outs, 0);
    if Deserialized(g, s).Some? {
      StartsBehindEquals(g, s);
      if items.StringItems? {
        ItemsAdd(g, s, |name| + 1, ['[' as int]);
        WeightFalls(g, s, 0, |name| + 1);
        WholeSits(s);
        ListWeighs(g, s, 0, ts, outs, 0);
        ArrayTextLength(outs);
      } else {
        NoEquals(g, ts, outs, SeparatorText(g), 0);
      }
    }
  }

  lemma OwnWeighs(g: Settings, s: Bytes, e: nat)
    requires Proper(g) && Sits(s, e, SeparatorText(g))
    ensures Weight(g, s, e) == 3 + Weight(g, s, e + |SeparatorText(g)|)
  {
  }

  /** Items between their own separators weigh what they give. */
  lemma {:induction false} ListWeighs(g: Settings, s: Bytes, p: nat, ts: seq<Bytes>, outs: seq<Bytes>, k: nat)
    requires Proper(g) && g.items.StringItems? && AreItems(g, ts, outs) && k < |ts|
    requires Sits(s, p, JoinedBy(ts, SeparatorText(g), k)) && p + |JoinedBy(ts, SeparatorText(g), k)| == |s|
    ensures |outs| == |ts| && Weight(g, s, p) == |Listed(outs, k)|
    decreases |ts| - k
  {
    hide *;
    var e := p + |ts[k]|;
    JoinedParts(s, p, ts, SeparatorText(g), k);
    OneString(g, ts, outs, k);
    ItemWeighs(g, s, p, ts[k], 0);
    ListedLength(outs, k);
    if k + 1 < |ts| {
      OwnWeighs(g, s, e);
      ListWeighs(g, s, e + |SeparatorText(g)|, ts, outs, k + 1);
    } else {
      EndWeighs(g, s);
    }
  }

  lemma WholeSits(s: Bytes)
    ensures Sits(s, 0, s)
  {
    assert s[0..|s|] == s;
  }

  // ----- two integers in each spelling -----

  const NAME: Bytes := ['a' as int]
  const ONE: Bytes := ['1' as int]
  const TWO: Bytes := ['2' as int]

  lemma TwoIntegers(style: ParamStyle)
    ensures AreItems(Delimited(style, NAME, IntegerItems), [ONE, TWO], [ONE, TWO])
  {
    assert IsIntegerText(ONE) && IsIntegerText(TWO);
  }

  lemma TwoJoined(separator: Bytes)
    ensures JoinedBy([ONE, TWO], separator, 0) == ONE + (separator + TWO)
  {
    JoinedStep([ONE, TWO], separator, 0);
    JoinedStep([ONE, TWO], separator, 1);
  }

  /** `a=1%7C2`, the text of version 3.0.4. */
  lemma EncodedPipeLost()
    ensures NAME + [EQUALS] + JoinedBy([ONE, TWO], ENCODED_PIPE, 0) ==
            ['a' as int, '=' as int, '1' as int, '%' as int, '7' as int, 'C' as int, '2' as int]
    ensures Deserialized(Delimited(PipeDelim, NAME, IntegerItems), NAME + [EQUALS] + JoinedBy([ONE, TWO], ENCODED_PIPE, 0)) == None
  {
    TwoIntegers(PipeDelim);
    TwoJoined(ENCODED_PIPE);
    Pipes(NAME, IntegerItems);
    hide Deserialized, JoinedBy, AreItems, Foreign, Lead;
    assert NAME + [EQUALS] + (ONE + (ENCODED_PIPE + TWO)) ==
      ['a' as int, '=' as int, '1' as int, '%' as int, '7' as int, 'C' as int, '2' as int];
    OthersStop(Delimited(PipeDelim, NAME, IntegerItems), [ONE, TWO], [ONE, TWO], ENCODED_PIPE);
  }

  /** `1|2` and `1%202`, the texts of the versions before. */
  lemma UnnamedListsLost()
    ensures JoinedBy([ONE, TWO], ['|' as int], 0) == ['1' as int, '|' as int, '2' as int]
    ensures Deserialized(Delimited(PipeDelim, NAME, IntegerItems), JoinedBy([ONE, TWO], ['|' as int], 0)) == None
    ensures JoinedBy([ONE, TWO], TWENTY, 0) == ['1' as int, '%' as int, '2' as int, '0' as int, '2' as int]
    ensures Deserialized(Delimited(SpaceDelim, NAME, IntegerItems), JoinedBy([ONE, TWO], TWENTY, 0)) == None
  {
    hide Deserialized, JoinedBy;
    TwoJoined(['|' as int]);
    TwoJoined(TWENTY);
    assert ONE + (['|' as int] + TWO) == ['1' as int, '|' as int, '2' as int];
    assert ONE + (TWENTY + TWO) == ['1' as int, '%' as int, '2' as int, '0' as int, '2' as int];
    UnnamedIsLost(PipeDelim, ['|' as int]);
    UnnamedIsLost(SpaceDelim, TWENTY);
  }

  lemma UnnamedIsLost(style: ParamStyle, separator: Bytes)
    requires IsDelimited(style) && EQUALS !in separator
    ensures Deserialized(Delimited(style, NAME, IntegerItems), JoinedBy([ONE, TWO], separator, 0)) == None
  {
    var g := Delimited(style, NAME, IntegerItems);
    TwoIntegers(style);
    Names(style, NAME, IntegerItems);
    hide *;
    NoEquals(g, [ONE, TWO], [ONE, TWO], separator, 0);
    if Deserialized(g, JoinedBy([ONE, TWO], separator, 0)).Some? {
      StartsBehindEquals(g, JoinedBy([ONE, TWO], separator, 0));
    }
  }
}
