/** The texts the array deserialiser accepts, and what it makes of them. */
module ArrayTexts {
  import opened Common
  import opened ArrayParams

  /** The separator is no hexadecimal digit, and no decimal point between numbers. */
  predicate Separates(g: Settings) {
    Proper(g) && HexValue(g.separator).None? && (g.items.NumberItems? ==> g.separator != POINT)
  }

  // ----- one item -----

  lemma IntegerSound(s: Bytes, p: nat)
    requires p <= |s| && IntegerAt(s, p).Some?
    ensures var r := IntegerAt(s, p).value; p < r.next <= |s| && r.out == s[p..r.next] && IsIntegerText(r.out)
  {
    var r := IntegerAt(s, p).value;
    hide DigitsEnd;
    assert forall i | p <= i < r.next :: s[i] == r.out[i - p];
  }

  lemma {:induction false} ScanSound(s: Bytes, p: nat, point: bool)
    requires p <= |s| && NumberScan(s, p, point).Some?
    ensures var (e, now) := NumberScan(s, p, point).value;
      && p <= e <= |s| && (forall i | p <= i < e :: IsDigit(s[i]) || s[i] == POINT)
      && (forall i, k | p <= i < k < e :: !(s[i] == POINT && s[k] == POINT))
      && (point ==> now && forall i | p <= i < e :: s[i] != POINT) && (!now ==> forall i | p <= i < e :: s[i] != POINT)
    decreases |s| - p
  {
    if p < |s| && (IsDigit(s[p]) || s[p] == POINT) { ScanSound(s, p + 1, point || s[p] == POINT); }
  }

  lemma NumberSound(s: Bytes, p: nat)
    requires p <= |s| && NumberAt(s, p).Some?
    ensures var r := NumberAt(s, p).value; p < r.next <= |s| && r.out == s[p..r.next] && IsNumberText(r.out)
  {
    var r := NumberAt(s, p).value;
    ScanSound(s, if p < |s| && s[p] == MINUS then p + 1 else p, false);
    hide NumberScan;
    assert forall i | 0 <= i < |r.out| :: r.out[i] == s[p + i];
  }

  lemma ByteWithin(s: Bytes, p: nat, e: nat, j: nat)
    requires p + j < e <= |s| && ByteAt(s, p + j).Some? && ByteAt(s, p + j).value.1 <= e
    ensures ByteAt(s[p..e], j) == Some((ByteAt(s, p + j).value.0, ByteAt(s, p + j).value.1 - p))
  {
    hide HexValue;
  }

  lemma HexIsNone(c: Byte, separator: Byte)
    requires HexValue(separator).None? && HexValue(c).Some?
    ensures c != separator
  {
  }

  /** A string that is read decodes as a whole, and holds no separator. */
  lemma {:induction false} StringSound(s: Bytes, p: nat, i: nat, separator: Byte, acc: Bytes)
    requires p <= i <= |s| && HexValue(separator).None? && StringFrom(s, i, separator, acc).Some?
    ensures var r := StringFrom(s, i, separator, acc).value;
      && i <= r.next <= |s| && (forall k | i <= k < r.next :: s[k] != separator)
      && Decoded(s[p..r.next], i - p).Some? && r.out == acc + Decoded(s[p..r.next], i - p).value
    decreases |s| - i
  {
    var r := StringFrom(s, i, separator, acc).value;
    if i == |s| || s[i] == separator {
      assert acc + [] == acc;
    } else {
      var b := ByteAt(s, i).value;
      StringSound(s, p, b.1, separator, acc + [b.0]);
      ByteWithin(s, p, r.next, i - p);
      forall k | i <= k < b.1 ensures s[k] != separator {
        if k > i { HexIsNone(s[k], separator); }
      }
      hide ByteAt, HexValue;
      var rest := Decoded(s[p..r.next], b.1 - p).value;
      assert acc + [b.0] + rest == acc + ([b.0] + rest);
    }
  }

  lemma ItemSound(g: Settings, s: Bytes, p: nat)
    requires Separates(g) && p <= |s| && ItemAt(g, s, p).Some?
    ensures var r := ItemAt(g, s, p).value; p <= r.next <= |s| && IsItem(g, s[p..r.next], r.out)
  {
    hide BooleanAt, IntegerAt, NumberAt, StringFrom, Decoded, IsIntegerText, IsNumberText, HexValue;
    var r := ItemAt(g, s, p).value;
    match g.items
    case BooleanItems => BooleanSound(s, p);
    case IntegerItems => IntegerSound(s, p);
    case NumberItems => NumberSound(s, p);
    case StringItems =>
      StringSound(s, p, p, g.separator, []);
      assert [] + Decoded(s[p..r.next], 0).value == Decoded(s[p..r.next], 0).value;
  }

  lemma BooleanSound(s: Bytes, p: nat)
    requires BooleanAt(s, p).Some?
    ensures var r := BooleanAt(s, p).value;
      p < r.next <= |s| && r.out == s[p..r.next] && (r.out == TRUE_TEXT || r.out == FALSE_TEXT)
  {
  }

  // ----- names and separators -----

  lemma NameSound(g: Settings, s: Bytes, p: nat)
    requires p < |s| && NameAt(g, s, p).Some?
    ensures var q := NameAt(g, s, p).value; p <= q < |s| && s[p..q] == NameText(g)
  {
    if g.runningName {
      var q := p + |g.name|;
      assert s[p..q + 1] == s[p..q] + [s[q]];
    }
  }

  lemma SeparatorSound(g: Settings, s: Bytes, e: nat)
    requires Proper(g) && e < |s| && SeparatorAt(g, s, e).Some?
    ensures var next := SeparatorAt(g, s, e).value; e < next < |s| && s[e..next] == SeparatorText(g)
  {
  }

  // ----- lists -----

  lemma {:induction false} WireShifts(g: Settings, t: Bytes, ts: seq<Bytes>, k: nat)
    requires k < |ts|
    ensures Wire(g, [t] + ts, k + 1) == Wire(g, ts, k)
    decreases |ts| - k
  {
    hide NameText, SeparatorText;
    if k + 1 < |ts| { WireShifts(g, t, ts, k + 1); }
  }

  lemma WireCons(g: Settings, t: Bytes, ts: seq<Bytes>)
    requires ts != []
    ensures Wire(g, [t] + ts, 0) == NameText(g) + t + (SeparatorText(g) + Wire(g, ts, 0))
  {
    WireShifts(g, t, ts, 0);
    hide NameText, SeparatorText;
  }

  lemma WireOfOne(g: Settings, t: Bytes)
    ensures Wire(g, [t], 0) == NameText(g) + t
  {
    hide NameText;
    assert NameText(g) + t + [] == NameText(g) + t;
  }

  lemma {:induction false} ListedShifts(out: Bytes, outs: seq<Bytes>, k: nat)
    requires k <= |outs|
    ensures Listed([out] + outs, k + 1) == Listed(outs, k)
    decreases |outs| - k
  {
    var all := [out] + outs;
    if k < |outs| {
      assert all[k + 1] == outs[k];
      ListedShifts(out, outs, k + 1);
      assert Listed(all, k + 1) == all[k + 1] + [COMMA] + Listed(all, k + 2);
    }
  }

  lemma ListedCons(out: Bytes, outs: seq<Bytes>, ret: Bytes)
    ensures ret + out + [COMMA] + Listed(outs, 0) == ret + Listed([out] + outs, 0)
  {
    ListedShifts(out, outs, 0);
    assert Listed([out] + outs, 0) == out + [COMMA] + Listed([out] + outs, 1);
    hide Listed;
    assert ret + (out + [COMMA] + Listed(outs, 0)) == ret + out + [COMMA] + Listed(outs, 0);
  }

  /** Items, the last of which is not empty. */
  predicate IsList(g: Settings, ts: seq<Bytes>, outs: seq<Bytes>) {
    ts != [] && AreItems(g, ts, outs) && ts[|ts| - 1] != []
  }

  lemma ListOfOne(g: Settings, t: Bytes, out: Bytes)
    requires IsItem(g, t, out) && t != []
    ensures IsList(g, [t], [out])
  {
    hide IsItem;
  }

  lemma ListOfMore(g: Settings, t: Bytes, out: Bytes, ts: seq<Bytes>, outs: seq<Bytes>)
    requires IsItem(g, t, out) && IsList(g, ts, outs)
    ensures IsList(g, [t] + ts, [out] + outs)
  {
    hide IsItem;
  }

  /** What the loop reads to the end is the wire text of a list. */
  lemma {:induction false} ItemsSound(g: Settings, s: Bytes, p: nat, ret: Bytes) returns (ts: seq<Bytes>, outs: seq<Bytes>)
    requires Separates(g) && p < |s| && ItemsFrom(g, s, p, ret).Some?
    ensures IsList(g, ts, outs) && Wire(g, ts, 0) == s[p..] && ItemsFrom(g, s, p, ret).value == ret + Listed(outs, 0)
    decreases |s| - p
  {
    hide *;
    var n, item, next := Turn(g, s, p, ret);
    NameSound(g, s, p);
    ItemSound(g, s, n);
    var t := s[n..item.next];
    if item.next == |s| {
      ts, outs := [t], [item.out];
      ListOfOne(g, t, item.out);
      WireOfOne(g, t);
      ListedCons(item.out, [], ret);
      NoneListed([]);
      assert s[p..] == s[p..n] + t && [item.out] + [] == [item.out];
      assert ret + item.out + [COMMA] + [] == ret + item.out + [COMMA];
    } else {
      SeparatesProperly(g);
      SeparatorSound(g, s, item.next);
      var rest, others := ItemsSound(g, s, next, ret + item.out + [COMMA]);
      ts, outs := [t] + rest, [item.out] + others;
      ListOfMore(g, t, item.out, rest, others);
      ListNotEmpty(g, rest, others);
      WireCons(g, t, rest);
      ListedCons(item.out, others, ret);
      assert s[p..] == s[p..n] + t + (s[item.next..next] + s[next..]);
    }
  }

  lemma SeparatesProperly(g: Settings)
    requires Separates(g)
    ensures Proper(g)
  {
  }

  lemma ListNotEmpty(g: Settings, ts: seq<Bytes>, outs: seq<Bytes>)
    requires IsList(g, ts, outs)
    ensures ts != [] && |outs| == |ts|
  {
  }

  /** One turn of a loop that comes to an end. */
  lemma Turn(g: Settings, s: Bytes, p: nat, ret: Bytes) returns (n: nat, item: Read, next: nat)
    requires p < |s| && ItemsFrom(g, s, p, ret).Some?
    ensures NameAt(g, s, p) == Some(n) && n <= |s| && ItemAt(g, s, n) == Some(item) && item.next <= |s|
    ensures SeparatorAt(g, s, item.next) == Some(next) && p < next <= |s|
    ensures var now := ret + item.out + [COMMA];
      if item.next == |s| then ItemsFrom(g, s, p, ret) == Some(now) else ItemsFrom(g, s, p, ret) == ItemsFrom(g, s, next, now)
  {
    hide NameAt, ItemAt;
    n := NameAt(g, s, p).value;
    item := ItemAt(g, s, n).value;
    next := SeparatorAt(g, s, item.next).value;
    Progress(g, s, p);
  }

  // ----- whole texts -----

  lemma LeadSound(g: Settings, s: Bytes) returns (p: nat)
    requires Deserialized(g, s).Some?
    ensures p < |s| && s[..p] == Lead(g) && ItemsFrom(g, s, p, ['[' as int]).Some?
    ensures var t := ItemsFrom(g, s, p, ['[' as int]).value;
      t != [] && t[|t| - 1] == COMMA ==> Deserialized(g, s) == Some(t[..|t| - 1] + [']' as int])
  {
    hide ItemsFrom;
    p := if g.start != 0 then 1 else 0;
    if g.skipName && !g.runningName {
      var q := p + |g.name|;
      assert s[..q + 1] == s[..p] + s[p..q] + [s[q]];
      p := q + 1;
    }
  }

  /** The deserialiser accepts exactly the texts of lists whose last item is not empty, and makes
      of each the array of its items. */
  lemma DeserializesExactly(g: Settings, s: Bytes, t: Bytes)
    requires Separates(g)
    ensures Deserialized(g, s) == Some(t) <==>
            exists ts, outs :: IsList(g, ts, outs) && s == Lead(g) + Wire(g, ts, 0) && t == ArrayText(outs)
  {
    hide Deserialized, ItemsFrom, Listed, Wire, ArrayText, IsItem, Lead, Separates, Proper;
    SeparatesProperly(g);
    if Deserialized(g, s) == Some(t) {
      var p := LeadSound(g, s);
      var ts, outs := ItemsSound(g, s, p, ['[' as int]);
      ListNotEmpty(g, ts, outs);
      ListedEnds(outs, 0);
      Bracketed(Listed(outs, 0));
      AsArray(outs);
      assert s == s[..p] + s[p..];
    }
    if ts, outs :| IsList(g, ts, outs) && s == Lead(g) + Wire(g, ts, 0) && t == ArrayText(outs) {
      ListParts(g, ts, outs);
      WireDeserializes(g, ts, outs);
    }
  }

  lemma ListParts(g: Settings, ts: seq<Bytes>, outs: seq<Bytes>)
    requires IsList(g, ts, outs)
    ensures ts != [] && AreItems(g, ts, outs) && ts[|ts| - 1] != []
  {
  }
}
