/** Array parameters: the settings chosen for a style, the deserialising loops, and what they undo. */
module ArrayParams {
  import opened Common

  const EQUALS: Byte := '=' as int

  // ----- settings -----

  datatype ParamStyle = Simple | Label | Matrix | Form | SpaceDelim | PipeDelim

  function GetStartChar(style: ParamStyle): Byte {
    match style
    case Label => POINT
    case Matrix => ';' as int
    case Simple => 0
    case Form => 0
    case SpaceDelim => 0
    case PipeDelim => 0
  }

  predicate HasNameAtStart(style: ParamStyle, explode: bool) {
    !(style.Simple? || style.Label?) && !explode
  }

  function GetArrayItemsSeparator(style: ParamStyle, explode: bool): (c: Byte)
    ensures !IsDigit(c) && c != MINUS
  {
    if explode then
      if style.Label? then POINT
      else if style.Matrix? then ';' as int
      else if style.Simple? then COMMA
      else '&' as int
    else if style.SpaceDelim? then PERCENT
    else if style.PipeDelim? then '|' as int
    else COMMA
  }

  predicate HasArrayRunningName(style: ParamStyle, explode: bool) {
    explode && !(style.Simple? || style.Label?)
  }

  datatype ItemType = BooleanItems | IntegerItems | NumberItems | StringItems

  datatype Settings = Settings(
    name: Bytes, start: Byte, skipName: bool, items: ItemType, separator: Byte, runningName: bool, has20Separator: bool)

  function SettingsFor(style: ParamStyle, explode: bool, name: Bytes, items: ItemType): Settings {
    Settings(name, GetStartChar(style), HasNameAtStart(style, explode), items, GetArrayItemsSeparator(style, explode),
             HasArrayRunningName(style, explode), style.SpaceDelim? && !explode)
  }

  // ----- what the helpers read; nothing where they throw -----

  function SkipChar(s: Bytes, p: nat, c: Byte): (r: Option<nat>)
    ensures r.Some? && p <= |s| ==> p <= r.value <= |s|
  {
    if p >= |s| then Some(p) else if s[p] == c then Some(p + 1) else None
  }

  function SkipName(s: Bytes, p: nat, name: Bytes): (r: Option<nat>)
    ensures r.Some? ==> p <= r.value <= |s|
  {
    if Sits(s, p, name) then Some(p + |name|) else None
  }

  const TWENTY: Bytes := [PERCENT, '2' as int, '0' as int]

  datatype Read = Read(next: nat, out: Bytes)

  function BooleanAt(s: Bytes, p: nat): (r: Option<Read>)
    ensures r.Some? ==> p < r.value.next <= |s|
  {
    if Sits(s, p, TRUE_TEXT) then Some(Read(p + 4, TRUE_TEXT))
    else if Sits(s, p, FALSE_TEXT) then Some(Read(p + 5, FALSE_TEXT))
    else None
  }

  function IntegerAt(s: Bytes, p: nat): (r: Option<Read>)
    requires p <= |s|
    ensures r.Some? ==> p < r.value.next <= |s|
  {
    var q := if p < |s| && s[p] == MINUS then p + 1 else p;
    var e := DigitsEnd(s, q);
    if e > p && !(e == p + 1 && s[p] == MINUS) then Some(Read(e, s[p..e])) else None
  }

  /** Where a run of digits and points ends, and whether it has a point; nothing at a second
      one. */
  function NumberScan(s: Bytes, p: nat, point: bool): (r: Option<(nat, bool)>)
    requires p <= |s|
    ensures r.Some? ==> p <= r.value.0 <= |s|
    decreases |s| - p
  {
    if p < |s| && (IsDigit(s[p]) || s[p] == POINT) then
      if s[p] == POINT && point then None else NumberScan(s, p + 1, point || s[p] == POINT)
    else Some((p, point))
  }

  function NumberAt(s: Bytes, p: nat): (r: Option<Read>)
    requires p <= |s|
    ensures r.Some? ==> p < r.value.next <= |s|
  {
    var q := if p < |s| && s[p] == MINUS then p + 1 else p;
    var scan := NumberScan(s, q, false);
    if scan.None? then None
    else
      var (e, point) := scan.value;
      if e > p && (e != p + 1 || (s[p] != MINUS && s[p] != POINT)) && (!point || s[e - 1] != POINT)
      then Some(Read(e, s[p..e])) else None
  }

  /** One byte of a percent-encoded string. */
  function ByteAt(s: Bytes, p: nat): (r: Option<(Byte, nat)>)
    requires p < |s|
    ensures r.Some? ==> p < r.value.1 <= |s|
  {
    if s[p] == PERCENT then
      if p + 2 >= |s| then None
      else
        var h, l := HexValue(s[p + 1]), HexValue(s[p + 2]);
        if h.None? || l.None? then None else Some((h.value * 16 + l.value, p + 3))
    else if s[p] == PLUS then Some((' ' as int, p + 1))
    else Some((s[p], p + 1))
  }

  /** A string up to the terminator or the end, after `acc`. */
  function StringFrom(s: Bytes, p: nat, terminator: Byte, acc: Bytes): (r: Option<Read>)
    requires p <= |s|
    ensures r.Some? ==> p <= r.value.next <= |s|
    ensures r.Some? && p < |s| && s[p] != terminator ==> p < r.value.next
    decreases |s| - p
  {
    if p == |s| || s[p] == terminator then Some(Read(p, acc))
    else
      var b := ByteAt(s, p);
      if b.None? then None else StringFrom(s, b.value.1, terminator, acc + [b.value.0])
  }

  function ItemAt(g: Settings, s: Bytes, p: nat): (r: Option<Read>)
    requires p <= |s|
    ensures r.Some? ==> p <= r.value.next <= |s|
    ensures r.Some? && p < |s| && !(g.items.StringItems? && s[p] == g.separator) ==> p < r.value.next
  {
    match g.items
    case BooleanItems => BooleanAt(s, p)
    case IntegerItems => IntegerAt(s, p)
    case NumberItems => NumberAt(s, p)
    case StringItems =>
      var r := StringFrom(s, p, g.separator, []);
      if r.None? then None else Some(Read(r.value.next, [QUOTE] + r.value.out + [QUOTE]))
  }

  /** The running name before an item. */
  function NameAt(g: Settings, s: Bytes, p: nat): (r: Option<nat>)
    requires p <= |s|
    ensures r.Some? ==> p <= r.value <= |s|
  {
    if !g.runningName then Some(p)
    else
      var q := SkipName(s, p, g.name);
      if q.None? then None
      else
        var e := SkipChar(s, q.value, EQUALS);
        if e.None? || e.value >= |s| then None else e
  }

  /** The separator after an item, with data behind it, or the end. */
  function SeparatorAt(g: Settings, s: Bytes, p: nat): (r: Option<nat>)
    requires p <= |s|
    ensures r.Some? ==> p <= r.value <= |s| && (p < |s| ==> p < r.value)
  {
    if p >= |s| then Some(p)
    else
      var q :=
        if g.has20Separator then
          var a := SkipChar(s, p, PERCENT);
          var b := if a.None? then None else SkipChar(s, a.value, '2' as int);
          if b.None? then None else SkipChar(s, b.value, '0' as int)
        else SkipChar(s, p, g.separator);
      if q.None? || q.value >= |s| then None else q
  }

  /** The items from `p` on, each followed by a comma, after `ret`. */
  function ItemsFrom(g: Settings, s: Bytes, p: nat, ret: Bytes): Option<Bytes>
    requires p <= |s|
    decreases |s| - p
  {
    if p >= |s| then Some(ret)
    else
      var n := NameAt(g, s, p);
      if n.None? then None
      else
        var item := ItemAt(g, s, n.value);
        if item.None? then None
        else
          var next := SeparatorAt(g, s, item.value.next);
          if next.None? then None
          else
            Progress(g, s, p);
            ItemsFrom(g, s, next.value, ret + item.value.out + [COMMA])
  }

  /** Every turn of the loop moves the cursor. */
  lemma Progress(g: Settings, s: Bytes, p: nat)
    requires p < |s| && NameAt(g, s, p).Some? && ItemAt(g, s, NameAt(g, s, p).value).Some?
    requires SeparatorAt(g, s, ItemAt(g, s, NameAt(g, s, p).value).value.next).Some?
    ensures SeparatorAt(g, s, ItemAt(g, s, NameAt(g, s, p).value).value.next).value > p
  {
    hide ItemAt;
  }

  /** `ArrayDeserializer::Deserialize`. */
  function Deserialized(g: Settings, s: Bytes): Option<Bytes> {
    if g.start != 0 && Peek(s, 0) != g.start then None
    else
      var p := if g.start != 0 then 1 else 0;
      var q := if g.skipName && !g.runningName then SkipName(s, p, g.name) else Some(p);
      var r := if q.None? then None else if g.skipName && !g.runningName then SkipChar(s, q.value, EQUALS) else q;
      if r.None? || r.value >= |s| then None
      else
        var ret := ItemsFrom(g, s, r.value, ['[' as int]);
        if ret.None? then None
        else
          var t := ret.value;
          Some(if t != [] && t[|t| - 1] == COMMA then t[..|t| - 1] + [']' as int] else t + [']' as int])
  }

  // ----- serialisations -----

  /** Percent-decoding of a whole text, `+` standing for a space. */
  function Decoded(t: Bytes, p: nat): Option<Bytes>
    requires p <= |t|
    decreases |t| - p
  {
    if p == |t| then Some([])
    else
      var b := ByteAt(t, p);
      if b.None? then None
      else
        var rest := Decoded(t, b.value.1);
        if rest.None? then None else Some([b.value.0] + rest.value)
  }

  /** `t` is an item as it travels and `out` the item in the resulting array: a boolean, an
      integer, a number where the separator is no decimal point, or a string, possibly
      empty, encoded so that no raw separator remains. */
  predicate IsItem(g: Settings, t: Bytes, out: Bytes) {
    match g.items
    case BooleanItems => t == out && (t == TRUE_TEXT || t == FALSE_TEXT)
    case IntegerItems => t == out && t != [] && IsIntegerText(t)
    case NumberItems => t == out && IsNumberText(t) && g.separator != POINT
    case StringItems =>
      (forall i | 0 <= i < |t| :: t[i] != g.separator) && Decoded(t, 0).Some?
      && out == [QUOTE] + Decoded(t, 0).value + [QUOTE]
  }

  predicate IsIntegerText(t: Bytes) {
    var n := if t != [] && t[0] == MINUS then 1 else 0;
    n < |t| && forall i | n <= i < |t| :: IsDigit(t[i])
  }

  /** An optional sign, then digits with at most one point among them, which is not last. */
  predicate IsNumberText(t: Bytes) {
    var n := if t != [] && t[0] == MINUS then 1 else 0;
    && n < |t| && IsDigit(t[|t| - 1])
    && (forall i | n <= i < |t| :: IsDigit(t[i]) || t[i] == POINT)
    && forall i, k | n <= i < k < |t| :: !(t[i] == POINT && t[k] == POINT)
  }

  /** The decimal text of every integer is an integer item. */
  lemma IntegersAreItems(i: int)
    ensures IsIntegerText(IntText(i))
  {
    var t := DecText(if i < 0 then -i else i);
    hide DecText;
    if i < 0 { assert forall k | 1 <= k < |IntText(i)| :: IntText(i)[k] == t[k - 1]; }
  }

  function Percented(s: Bytes): (t: Bytes)
    ensures |t| == 3 * |s|
    ensures forall i | 0 <= i < |t| :: t[i] == PERCENT || HexValue(t[i]).Some?
  {
    if s == [] then [] else [PERCENT, HexDigit(s[0] / 16), HexDigit(s[0] % 16)] + Percented(s[1..])
  }

  lemma {:induction false} PercentedDecodes(s: Bytes, p: nat)
    requires p <= |s|
    ensures Decoded(Percented(s), 3 * p) == Some(s[p..])
    decreases |s| - p
  {
    if p < |s| {
      PercentedAt(s, p);
      PercentedDecodes(s, p + 1);
      assert s[p..] == [s[p]] + s[p + 1..];
      TripletByte(Percented(s), 3 * p, s[p]);
      hide Percented, HexDigit, HexValue, ByteAt;
    } else {
      assert s[p..] == [];
    }
  }

  lemma TripletByte(t: Bytes, i: nat, c: Byte)
    requires i + 2 < |t| && t[i] == PERCENT && t[i + 1] == HexDigit(c / 16) && t[i + 2] == HexDigit(c % 16)
    ensures ByteAt(t, i) == Some((c, i + 3))
  {
    hide HexDigit, HexValue;
  }

  lemma {:induction false} PercentedAt(s: Bytes, p: nat)
    requires p < |s|
    ensures var t := Percented(s);
      t[3 * p] == PERCENT && t[3 * p + 1] == HexDigit(s[p] / 16) && t[3 * p + 2] == HexDigit(s[p] % 16)
    decreases p
  {
    if p > 0 { PercentedAt(s[1..], p - 1); }
  }

  /** Every string can travel, whatever its bytes, when the separator is not the
      percent sign itself. */
  lemma EveryStringCanTravel(g: Settings, s: Bytes)
    requires g.items.StringItems? && g.separator != PERCENT && HexValue(g.separator).None?
    ensures IsItem(g, Percented(s), [QUOTE] + s + [QUOTE])
  {
    PercentedDecodes(s, 0);
    assert s[0..] == s;
    hide Percented, Decoded, HexValue;
  }

  // ----- what an encoded string spells -----

  /** `t` spells `d`: `%` and two hexadecimal digits stand for a byte, `+` for a space, and
      every other byte for itself. */
  predicate Spells(t: Bytes, d: Bytes)
    decreases |t|
  {
    if t == [] then d == []
    else if d == [] then false
    else if t[0] == 37 then
      && |t| >= 3 && HexDigitValue(t[1]).Some? && HexDigitValue(t[2]).Some?
      && d[0] == 16 * HexDigitValue(t[1]).value + HexDigitValue(t[2]).value && Spells(t[3..], d[1..])
    else d[0] == (if t[0] == 43 then 32 else t[0]) && Spells(t[1..], d[1..])
  }

  lemma ByteSpelled(t: Bytes, j: nat)
    requires j < |t|
    ensures ByteAt(t, j) ==
      if t[j] != 37 then Some((if t[j] == 43 then 32 else t[j], j + 1))
      else if j + 2 >= |t| || HexDigitValue(t[j + 1]).None? || HexDigitValue(t[j + 2]).None? then None
      else Some((16 * HexDigitValue(t[j + 1]).value + HexDigitValue(t[j + 2]).value, j + 3))
  {
    if j + 2 < |t| {
      SameDigits(t[j + 1]);
      SameDigits(t[j + 2]);
    }
    hide HexValue, HexDigitValue;
  }

  lemma {:induction false} DecodedFrom(t: Bytes, j: nat, d: Bytes)
    requires j <= |t|
    ensures Decoded(t, j) == Some(d) <==> Spells(t[j..], d)
    decreases |t| - j
  {
    hide ByteAt, HexDigitValue;
    if j < |t| {
      ByteSpelled(t, j);
      var b := ByteAt(t, j);
      if b.Some? {
        var next := b.value.1;
        assert t[j..][next - j..] == t[next..];
        if d != [] {
          DecodedFrom(t, next, d[1..]);
          assert d == [d[0]] + d[1..];
        }
      }
    }
  }

  /** Decoding gives what is spelled, and nothing where nothing is. */
  lemma DecodedIsSpelled(t: Bytes, d: Bytes)
    ensures Decoded(t, 0) == Some(d) <==> Spells(t, d)
  {
    DecodedFrom(t, 0, d);
    assert t[0..] == t;
    hide Decoded, Spells;
  }

  function SeparatorText(g: Settings): (r: Bytes)
    ensures r != []
  {
    if g.has20Separator then TWENTY else [g.separator]
  }

  function NameText(g: Settings): Bytes {
    if g.runningName then g.name + [EQUALS] else []
  }

  /** Items with their running names, joined by the separator, from item `k` on. */
  function Wire(g: Settings, ts: seq<Bytes>, k: nat): Bytes
    requires k < |ts|
    decreases |ts| - k
  {
    NameText(g) + ts[k] + if k + 1 == |ts| then [] else SeparatorText(g) + Wire(g, ts, k + 1)
  }

  /** Items of the result from `k` on, each followed by a comma. */
  function Listed(outs: seq<Bytes>, k: nat): Bytes
    requires k <= |outs|
    decreases |outs| - k
  {
    if k == |outs| then [] else outs[k] + [COMMA] + Listed(outs, k + 1)
  }

  /** Where an item can end: at the end, or at a separator. */
  predicate Ends(g: Settings, s: Bytes, e: nat) {
    e <= |s| && (e < |s| ==> s[e] == SeparatorText(g)[0])
  }

  lemma {:induction false} StringReads(s: Bytes, p: nat, t: Bytes, j: nat, separator: Byte, acc: Bytes)
    requires Sits(s, p, t) && j <= |t| && Decoded(t, j).Some?
    requires (forall i | 0 <= i < |t| :: t[i] != separator) && (p + |t| < |s| ==> s[p + |t|] == separator)
    ensures StringFrom(s, p + j, separator, acc) == Some(Read(p + |t|, acc + Decoded(t, j).value))
    decreases |t| - j
  {
    if j == |t| {
      assert acc + [] == acc;
    } else {
      SameByte(s, p, t, j);
      var b := ByteAt(t, j).value;
      hide ByteAt;
      StringReads(s, p, t, b.1, separator, acc + [b.0]);
      assert acc + [b.0] + Decoded(t, b.1).value == acc + ([b.0] + Decoded(t, b.1).value);
    }
  }

  lemma SameByte(s: Bytes, p: nat, t: Bytes, j: nat)
    requires Sits(s, p, t) && j < |t| && ByteAt(t, j).Some?
    ensures s[p + j] == t[j] && ByteAt(s, p + j) == Some((ByteAt(t, j).value.0, p + ByteAt(t, j).value.1))
  {
    forall k | 0 <= k < |t|
      ensures s[p + k] == t[k]
    {
      assert s[p..p + |t|][k] == t[k];
    }
    assert j + 2 < |t| ==> s[p + (j + 1)] == t[j + 1] && s[p + (j + 2)] == t[j + 2];
    hide HexValue;
  }

  lemma IntegerReads(s: Bytes, p: nat, t: Bytes)
    requires Sits(s, p, t) && IsIntegerText(t) && (p + |t| < |s| ==> !IsDigit(s[p + |t|]))
    ensures IntegerAt(s, p) == Some(Read(p + |t|, t))
  {
    forall k | 0 <= k < |t|
      ensures s[p + k] == t[k]
    {
      assert s[p..p + |t|][k] == t[k];
    }
    var q := if t[0] == MINUS then p + 1 else p;
    assert s[p + 0] == t[0];
    assert forall i | q <= i < p + |t| :: s[i] == t[i - p];
    DigitsStop(s, q, p + |t|);
    hide DigitsEnd;
  }

  predicate HasPoint(t: Bytes) {
    exists i | 0 <= i < |t| :: t[i] == POINT
  }

  /** Scanning over part of a number. */
  lemma {:induction false} ScanOver(s: Bytes, p: nat, e: nat, point: bool)
    requires p <= e <= |s| && forall i | p <= i < e :: IsDigit(s[i]) || s[i] == POINT
    requires forall i, k | p <= i < k < e :: !(s[i] == POINT && s[k] == POINT)
    requires point ==> forall i | p <= i < e :: s[i] != POINT
    ensures NumberScan(s, p, point) == NumberScan(s, e, point || exists i | p <= i < e :: s[i] == POINT)
    decreases e - p
  {
    if p < e {
      ScanOver(s, p + 1, e, point || s[p] == POINT);
      assert (exists i | p <= i < e :: s[i] == POINT) <==> s[p] == POINT || exists i | p + 1 <= i < e :: s[i] == POINT;
    }
  }

  lemma ScanItem(s: Bytes, p: nat, t: Bytes)
    requires Sits(s, p, t) && IsNumberText(t)
    ensures var q := if t[0] == MINUS then p + 1 else p;
      (s[p] == MINUS <==> t[0] == MINUS) && NumberScan(s, q, false) == NumberScan(s, p + |t|, HasPoint(t))
  {
    var n := if t[0] == MINUS then 1 else 0;
    forall k | 0 <= k < |t| ensures s[p + k] == t[k] { assert s[p..p + |t|][k] == t[k]; }
    assert s[p + 0] == t[0];
    assert forall i | p + n <= i < p + |t| :: s[i] == t[i - p];
    ScanOver(s, p + n, p + |t|, false);
    assert HasPoint(t) <==> exists i | p + n <= i < p + |t| :: s[i] == POINT by {
      if HasPoint(t) {
        var i :| 0 <= i < |t| && t[i] == POINT;
        assert s[p + i] == POINT;
      }
    }
    hide NumberScan;
  }

  lemma NumberReads(s: Bytes, p: nat, t: Bytes)
    requires Sits(s, p, t) && IsNumberText(t) && (p + |t| < |s| ==> !IsDigit(s[p + |t|]) && s[p + |t|] != POINT)
    ensures NumberAt(s, p) == Some(Read(p + |t|, t))
  {
    ScanItem(s, p, t);
    var e := p + |t|;
    assert NumberScan(s, e, HasPoint(t)) == Some((e, HasPoint(t)));
    assert s[e - 1] == s[p..e][|t| - 1] && s[p] == s[p..e][0];
    hide NumberScan, HasPoint;
  }

  lemma BooleanReads(s: Bytes, p: nat, t: Bytes)
    requires Sits(s, p, t) && (t == TRUE_TEXT || t == FALSE_TEXT)
    ensures BooleanAt(s, p) == Some(Read(p + |t|, t))
  {
    assert s[p..p + |t|][0] == t[0];
    if Sits(s, p, TRUE_TEXT) { assert s[p..p + 4][0] == TRUE_TEXT[0]; }
  }

  lemma ItemReads(g: Settings, s: Bytes, p: nat, t: Bytes, out: Bytes)
    requires Sits(s, p, t) && IsItem(g, t, out) && Ends(g, s, p + |t|)
    requires SeparatorText(g)[0] == g.separator && !IsDigit(g.separator)
    ensures ItemAt(g, s, p) == Some(Read(p + |t|, out))
  {
    if g.items.BooleanItems? {
      BooleanReads(s, p, t);
    } else if g.items.IntegerItems? {
      IntegerReads(s, p, t);
    } else if g.items.NumberItems? {
      NumberReads(s, p, t);
    } else {
      StringReads(s, p, t, 0, g.separator, []);
      assert [] + Decoded(t, 0).value == Decoded(t, 0).value;
    }
    hide IntegerAt, NumberAt, BooleanAt, StringFrom, Decoded;
  }

  predicate Proper(g: Settings) {
    SeparatorText(g)[0] == g.separator && !IsDigit(g.separator)
  }

  predicate AreItems(g: Settings, ts: seq<Bytes>, outs: seq<Bytes>) {
    |ts| == |outs| && forall i | 0 <= i < |ts| :: IsItem(g, ts[i], outs[i])
  }

  lemma OnlyStringsEmpty(g: Settings, t: Bytes, out: Bytes)
    requires IsItem(g, t, out)
    ensures t == [] ==> g.items.StringItems?
  {
    hide Decoded;
  }

  /** One item with its running name, at the end or before a separator. */
  lemma NamedItemReads(g: Settings, s: Bytes, p: nat, t: Bytes, out: Bytes)
    requires Proper(g) && IsItem(g, t, out) && Sits(s, p, NameText(g) + t) && Ends(g, s, p + |NameText(g)| + |t|)
    requires t != [] || p + |NameText(g)| < |s|
    ensures p < |s| && NameAt(g, s, p) == Some(p + |NameText(g)|)
    ensures ItemAt(g, s, p + |NameText(g)|) == Some(Read(p + |NameText(g)| + |t|, out))
  {
    SitsBoth(s, p, NameText(g), t);
    var q := p + |NameText(g)|;
    hide IsItem, ItemAt;
    if g.runningName {
      SitsBoth(s, p, g.name, [EQUALS]);
      assert s[q - 1..q][0] == EQUALS;
    }
    ItemReads(g, s, q, t, out);
  }

  lemma SeparatorReads(g: Settings, s: Bytes, e: nat)
    requires Proper(g) && Sits(s, e, SeparatorText(g)) && e + |SeparatorText(g)| < |s|
    ensures SeparatorAt(g, s, e) == Some(e + |SeparatorText(g)|)
  {
    var t := SeparatorText(g);
    assert s[e] == s[e..e + |t|][0] == t[0];
    if g.has20Separator {
      assert s[e + 1] == s[e..e + |t|][1] && s[e + 2] == s[e..e + |t|][2];
    }
  }

  /** The parts of the wire text at an item. */
  lemma WireParts(g: Settings, s: Bytes, p: nat, ts: seq<Bytes>, k: nat)
    requires k < |ts| && Sits(s, p, Wire(g, ts, k)) && p + |Wire(g, ts, k)| == |s|
    ensures var e := p + |NameText(g)| + |ts[k]|;
      && Sits(s, p, NameText(g) + ts[k]) && Ends(g, s, e)
      && (k + 1 == |ts| ==> e == |s|)
      && (k + 1 < |ts| ==>
            var next := e + |SeparatorText(g)|;
            Sits(s, e, SeparatorText(g)) && next <= |s| && Sits(s, next, Wire(g, ts, k + 1))
            && next + |Wire(g, ts, k + 1)| == |s|)
  {
    var e := p + |NameText(g)| + |ts[k]|;
    if k + 1 == |ts| {
      assert NameText(g) + ts[k] + [] == NameText(g) + ts[k];
    } else {
      assert Wire(g, ts, k) == NameText(g) + ts[k] + (SeparatorText(g) + Wire(g, ts, k + 1));
      hide Wire, NameText, SeparatorText;
      SitsBoth(s, p, NameText(g) + ts[k], SeparatorText(g) + Wire(g, ts, k + 1));
      SitsBoth(s, e, SeparatorText(g), Wire(g, ts, k + 1));
      assert s[e] == s[e..e + |SeparatorText(g)|][0];
    }
  }

  lemma WireNotEmpty(g: Settings, ts: seq<Bytes>, k: nat)
    requires k < |ts| && ts[|ts| - 1] != []
    ensures Wire(g, ts, k) != []
  {
  }

  /** The loop reads the items back, one by one. */
  lemma {:induction false} ItemsRead(g: Settings, s: Bytes, p: nat, ts: seq<Bytes>, outs: seq<Bytes>, k: nat, ret: Bytes)
    requires Proper(g) && AreItems(g, ts, outs) && k < |ts| && ts[|ts| - 1] != []
    requires Sits(s, p, Wire(g, ts, k)) && p + |Wire(g, ts, k)| == |s|
    ensures ItemsFrom(g, s, p, ret) == Some(ret + Listed(outs, k))
    decreases |ts| - k
  {
    hide *;
    OneOfItems(g, ts, outs, k);
    OneItemRead(g, s, p, ts, outs[k], k, ret);
    ListedStep(outs, k, ret);
    if k + 1 < |ts| {
      ItemsRead(g, s, p + |NameText(g)| + |ts[k]| + |SeparatorText(g)|, ts, outs, k + 1, ret + outs[k] + [COMMA]);
    }
  }

  lemma OneOfItems(g: Settings, ts: seq<Bytes>, outs: seq<Bytes>, k: nat)
    requires AreItems(g, ts, outs) && k < |ts|
    ensures |outs| == |ts| && IsItem(g, ts[k], outs[k])
  {
  }

  /** One turn of the loop. */
  lemma OneItemRead(g: Settings, s: Bytes, p: nat, ts: seq<Bytes>, out: Bytes, k: nat, ret: Bytes)
    requires Proper(g) && k < |ts| && IsItem(g, ts[k], out) && ts[|ts| - 1] != []
    requires Sits(s, p, Wire(g, ts, k)) && p + |Wire(g, ts, k)| == |s|
    ensures k + 1 == |ts| ==> ItemsFrom(g, s, p, ret) == Some(ret + out + [COMMA])
    ensures k + 1 < |ts| ==>
      var next := p + |NameText(g)| + |ts[k]| + |SeparatorText(g)|;
      && Sits(s, next, Wire(g, ts, k + 1)) && next + |Wire(g, ts, k + 1)| == |s|
      && ItemsFrom(g, s, p, ret) == ItemsFrom(g, s, next, ret + out + [COMMA])
  {
    hide *;
    var e := p + |NameText(g)| + |ts[k]|;
    WireParts(g, s, p, ts, k);
    if k + 1 < |ts| { WireNotEmpty(g, ts, k + 1); }
    NamedItemReads(g, s, p, ts[k], out);
    if k + 1 == |ts| {
      UnfoldItems(g, s, p, ret, Read(e, out), e);
      NothingMore(g, s, ret + out + [COMMA]);
    } else {
      SeparatorReads(g, s, e);
      UnfoldItems(g, s, p, ret, Read(e, out), e + |SeparatorText(g)|);
    }
  }

  lemma ListedStep(outs: seq<Bytes>, k: nat, ret: Bytes)
    requires k < |outs|
    ensures ret + outs[k] + [COMMA] + Listed(outs, k + 1) == ret + Listed(outs, k)
    ensures k + 1 == |outs| ==> ret + outs[k] + [COMMA] == ret + Listed(outs, k)
  {
    assert Listed(outs, k) == outs[k] + [COMMA] + Listed(outs, k + 1);
    hide Listed;
    assert ret + (outs[k] + [COMMA] + Listed(outs, k + 1)) == ret + outs[k] + [COMMA] + Listed(outs, k + 1);
    if k + 1 == |outs| { NoneListed(outs); }
  }

  lemma NoneListed(outs: seq<Bytes>)
    ensures Listed(outs, |outs|) == []
  {
  }

  lemma NothingMore(g: Settings, s: Bytes, ret: Bytes)
    ensures ItemsFrom(g, s, |s|, ret) == Some(ret)
  {
  }

  lemma UnfoldItems(g: Settings, s: Bytes, p: nat, ret: Bytes, item: Read, next: nat)
    requires p < |s| && NameAt(g, s, p).Some? && ItemAt(g, s, NameAt(g, s, p).value) == Some(item)
    requires if item.next == |s| then next == |s| else item.next < |s| && SeparatorAt(g, s, item.next) == Some(next)
    ensures next <= |s| && ItemsFrom(g, s, p, ret) == ItemsFrom(g, s, next, ret + item.out + [COMMA])
  {
    hide NameAt, ItemAt;
  }

  /** The result for a list of items. */
  function ArrayText(outs: seq<Bytes>): Bytes
    requires outs != []
  {
    var t := Listed(outs, 0);
    ['[' as int] + t[..|t| - 1] + [']' as int]
  }

  lemma {:induction false} ListedEnds(outs: seq<Bytes>, k: nat)
    requires k < |outs|
    ensures var t := Listed(outs, k); t != [] && t[|t| - 1] == COMMA
    decreases |outs| - k
  {
    if k + 1 < |outs| { ListedEnds(outs, k + 1); }
  }

  /** The text before the first item. */
  function Lead(g: Settings): Bytes {
    (if g.start != 0 then [g.start] else []) + (if g.skipName && !g.runningName then g.name + [EQUALS] else [])
  }

  /** A list of items, serialised as the settings say, is deserialised to that list if and only
      if its last item is not empty. */
  lemma WireDeserializes(g: Settings, ts: seq<Bytes>, outs: seq<Bytes>)
    requires Proper(g) && ts != [] && AreItems(g, ts, outs)
    ensures |outs| == |ts|
    ensures Deserialized(g, Lead(g) + Wire(g, ts, 0)) == Some(ArrayText(outs)) <==> ts[|ts| - 1] != []
  {
    hide *;
    OneOfItems(g, ts, outs, 0);
    if ts[|ts| - 1] != [] { ItemsDeserialize(g, ts, outs); } else { EmptyEndRefused(g, ts, outs); }
  }

  lemma ItemsDeserialize(g: Settings, ts: seq<Bytes>, outs: seq<Bytes>)
    requires Proper(g) && ts != [] && AreItems(g, ts, outs) && ts[|ts| - 1] != []
    ensures |outs| == |ts| && Deserialized(g, Lead(g) + Wire(g, ts, 0)) == Some(ArrayText(outs))
  {
    hide *;
    var w := Wire(g, ts, 0);
    OneOfItems(g, ts, outs, 0);
    WireNotEmpty(g, ts, 0);
    LeadSits(Lead(g), w);
    ItemsRead(g, Lead(g) + w, |Lead(g)|, ts, outs, 0, ['[' as int]);
    ListedEnds(outs, 0);
    BracketedItems(g, w, Listed(outs, 0));
    AsArray(outs);
  }

  /** Where the last item is empty, the loop meets a separator or a name with nothing behind. */
  lemma {:induction false} EmptyEnd(g: Settings, s: Bytes, p: nat, ts: seq<Bytes>, outs: seq<Bytes>, k: nat, ret: Bytes)
    requires Proper(g) && AreItems(g, ts, outs) && k < |ts| && ts[|ts| - 1] == [] && p < |s|
    requires Sits(s, p, Wire(g, ts, k)) && p + |Wire(g, ts, k)| == |s|
    ensures ItemsFrom(g, s, p, ret) == None
    decreases |ts| - k
  {
    hide *;
    var e := p + |NameText(g)| + |ts[k]|;
    WireParts(g, s, p, ts, k);
    if k + 1 == |ts| {
      NameAtEnd(g, s, p, ts[k]);
    } else {
      SeparatorFits(g, s, e);
      OneOfItems(g, ts, outs, k);
      NamedItemReads(g, s, p, ts[k], outs[k]);
      var next := e + |SeparatorText(g)|;
      if next == |s| {
        SeparatorAtEnd(g, s, e);
        NoneBehind(g, s, p, ret, Read(e, outs[k]));
      } else {
        SeparatorReads(g, s, e);
        UnfoldItems(g, s, p, ret, Read(e, outs[k]), next);
        EmptyEnd(g, s, next, ts, outs, k + 1, ret + outs[k] + [COMMA]);
      }
    }
  }

  lemma SeparatorFits(g: Settings, s: Bytes, e: nat)
    requires Sits(s, e, SeparatorText(g))
    ensures e < |s| && e + |SeparatorText(g)| <= |s|
  {
  }

  lemma NameAtEnd(g: Settings, s: Bytes, p: nat, t: Bytes)
    requires Sits(s, p, NameText(g) + t) && p + |NameText(g)| == |s| && p < |s|
    ensures forall ret :: ItemsFrom(g, s, p, ret) == None
  {
    SitsBoth(s, p, NameText(g), t);
    SitsBoth(s, p, g.name, [EQUALS]);
    assert s[|s| - 1..|s|][0] == EQUALS;
  }

  lemma SeparatorAtEnd(g: Settings, s: Bytes, e: nat)
    requires Proper(g) && Sits(s, e, SeparatorText(g)) && e + |SeparatorText(g)| == |s|
    ensures e < |s| && SeparatorAt(g, s, e) == None
  {
  }

  lemma NoneBehind(g: Settings, s: Bytes, p: nat, ret: Bytes, item: Read)
    requires p < |s| && NameAt(g, s, p).Some? && ItemAt(g, s, NameAt(g, s, p).value) == Some(item)
    requires item.next < |s| && SeparatorAt(g, s, item.next) == None
    ensures ItemsFrom(g, s, p, ret) == None
  {
    hide NameAt, ItemAt, SeparatorAt;
  }

  lemma EmptyEndRefused(g: Settings, ts: seq<Bytes>, outs: seq<Bytes>)
    requires Proper(g) && ts != [] && AreItems(g, ts, outs) && ts[|ts| - 1] == []
    ensures Deserialized(g, Lead(g) + Wire(g, ts, 0)) == None
  {
    hide *;
    var w := Wire(g, ts, 0);
    if w == [] {
      assert Lead(g) + w == Lead(g);
      NothingRefused(g);
    } else {
      LeadSits(Lead(g), w);
      EmptyEnd(g, Lead(g) + w, |Lead(g)|, ts, outs, 0, ['[' as int]);
      RefusedItems(g, w);
    }
  }

  lemma RefusedItems(g: Settings, w: Bytes)
    requires w != [] && ItemsFrom(g, Lead(g) + w, |Lead(g)|, ['[' as int]) == None
    ensures Deserialized(g, Lead(g) + w) == None
  {
    LeadReads(g, w);
    hide ItemsFrom, SkipName, SkipChar, Peek;
  }

  /** The empty list is not read at all. */
  lemma NothingRefused(g: Settings)
    ensures Deserialized(g, Lead(g)) == None
  {
    var s := Lead(g);
    var p := if g.start != 0 then 1 else 0;
    if g.skipName && !g.runningName {
      assert s[p..p + |g.name|] == g.name;
      assert s[p + |g.name|] == EQUALS;
    }
  }

  lemma AsArray(outs: seq<Bytes>)
    requires outs != []
    ensures ArrayText(outs) == ['[' as int] + Listed(outs, 0)[..|Listed(outs, 0)| - 1] + [']' as int]
  {
  }

  lemma LeadSits(lead: Bytes, w: Bytes)
    ensures Sits(lead + w, |lead|, w)
  {
  }

  lemma BracketedItems(g: Settings, w: Bytes, t: Bytes)
    requires w != [] && t != [] && t[|t| - 1] == COMMA
    requires ItemsFrom(g, Lead(g) + w, |Lead(g)|, ['[' as int]) == Some(['[' as int] + t)
    ensures Deserialized(g, Lead(g) + w) == Some(['[' as int] + t[..|t| - 1] + [']' as int])
  {
    LeadReads(g, w);
    Bracketed(t);
    hide ItemsFrom, Lead, SkipChar, SkipName, Peek;
  }

  lemma Bracketed(t: Bytes)
    requires t != []
    ensures var all := ['[' as int] + t;
      all[..|all| - 1] + [']' as int] == ['[' as int] + t[..|t| - 1] + [']' as int] && all[|all| - 1] == t[|t| - 1]
  {
  }

  lemma LeadReads(g: Settings, w: Bytes)
    requires w != []
    ensures var s := Lead(g) + w;
      && (g.start != 0 ==> Peek(s, 0) == g.start)
      && var p := if g.start != 0 then 1 else 0;
         if g.skipName && !g.runningName then
           SkipName(s, p, g.name) == Some(p + |g.name|) && SkipChar(s, p + |g.name|, EQUALS) == Some(|Lead(g)|)
         else p == |Lead(g)|
  {
    var s := Lead(g) + w;
    var p := if g.start != 0 then 1 else 0;
    if g.skipName && !g.runningName {
      assert s[p..p + |g.name|] == g.name;
      assert s[p + |g.name|] == EQUALS;
    }
  }

  // ----- the Style Values table -----

  function JoinedBy(ts: seq<Bytes>, separator: Bytes, k: nat): Bytes
    requires k < |ts|
    decreases |ts| - k
  {
    ts[k] + if k + 1 == |ts| then [] else separator + JoinedBy(ts, separator, k + 1)
  }

  function NamedBy(name: Bytes, ts: seq<Bytes>, separator: Bytes, k: nat): Bytes
    requires k < |ts|
    decreases |ts| - k
  {
    name + [EQUALS] + ts[k] + if k + 1 == |ts| then [] else separator + NamedBy(name, ts, separator, k + 1)
  }

  /** How an array parameter travels, by style and explode flag: the rows of version 3.0.4 of
      the OpenAPI Specification, but pipes between items as they are, where the table
      percent-encodes them. */
  function StyleText(style: ParamStyle, explode: bool, name: Bytes, ts: seq<Bytes>): Bytes
    requires ts != []
  {
    match style
    case Simple => JoinedBy(ts, [COMMA], 0)
    case Label => [POINT] + JoinedBy(ts, if explode then [POINT] else [COMMA], 0)
    case Matrix =>
      [';' as int] + if explode then NamedBy(name, ts, [';' as int], 0) else name + [EQUALS] + JoinedBy(ts, [COMMA], 0)
    case Form =>
      if explode then NamedBy(name, ts, ['&' as int], 0) else name + [EQUALS] + JoinedBy(ts, [COMMA], 0)
    case SpaceDelim =>
      if explode then NamedBy(name, ts, ['&' as int], 0) else name + [EQUALS] + JoinedBy(ts, TWENTY, 0)
    case PipeDelim =>
      if explode then NamedBy(name, ts, ['&' as int], 0) else name + [EQUALS] + JoinedBy(ts, ['|' as int], 0)
  }

  lemma {:induction false} WireByName(g: Settings, ts: seq<Bytes>, k: nat)
    requires k < |ts|
    ensures Wire(g, ts, k) ==
            if g.runningName then NamedBy(g.name, ts, SeparatorText(g), k) else JoinedBy(ts, SeparatorText(g), k)
    decreases |ts| - k
  {
    hide SeparatorText;
    if k + 1 < |ts| { WireByName(g, ts, k + 1); }
    assert [] + ts[k] == ts[k];
  }

  /** The settings chosen for a style describe exactly that style's text. */
  lemma StyleIsWire(style: ParamStyle, explode: bool, name: Bytes, items: ItemType, ts: seq<Bytes>)
    requires ts != []
    ensures var g := SettingsFor(style, explode, name, items);
      Proper(g) && StyleText(style, explode, name, ts) == Lead(g) + Wire(g, ts, 0)
  {
    WireByName(SettingsFor(style, explode, name, items), ts, 0);
    StyleIsLead(style, explode, name, items, ts);
    hide *;
  }

  lemma StyleIsLead(style: ParamStyle, explode: bool, name: Bytes, items: ItemType, ts: seq<Bytes>)
    requires ts != []
    ensures var g := SettingsFor(style, explode, name, items);
      var w := if g.runningName then NamedBy(g.name, ts, SeparatorText(g), 0) else JoinedBy(ts, SeparatorText(g), 0);
      Proper(g) && StyleText(style, explode, name, ts) == Lead(g) + w
  {
    hide JoinedBy, NamedBy;
    var g := SettingsFor(style, explode, name, items);
    var w := if g.runningName then NamedBy(g.name, ts, SeparatorText(g), 0) else JoinedBy(ts, SeparatorText(g), 0);
    LeadJoins(g.start, name, w);
  }

  lemma LeadJoins(start: Byte, name: Bytes, w: Bytes)
    ensures [] + [] + w == w && [] + (name + [EQUALS]) + w == name + [EQUALS] + w
    ensures [start] + (name + [EQUALS]) + w == [start] + (name + [EQUALS] + w) && [start] + [] + w == [start] + w
  {
  }

  /** For every style, every explode flag and every non-empty list of booleans, integers,
      numbers or encoded strings, the deserialiser with the settings chosen for that style
      gives exactly that list if and only if the last item is not the empty string. */
  lemma EveryStyleDeserializes(style: ParamStyle, explode: bool, name: Bytes, items: ItemType, ts: seq<Bytes>, outs: seq<Bytes>)
    requires ts != [] && AreItems(SettingsFor(style, explode, name, items), ts, outs)
    ensures |outs| == |ts|
    ensures var g := SettingsFor(style, explode, name, items);
      Deserialized(g, StyleText(style, explode, name, ts)) == Some(ArrayText(outs)) <==> ts[|ts| - 1] != []
  {
    StyleIsWire(style, explode, name, items, ts);
    hide *;
    WireDeserializes(SettingsFor(style, explode, name, items), ts, outs);
  }

  // ----- the deserialiser itself -----

  class ArrayDeserializer {
    const g: Settings

    constructor (g: Settings)
      ensures this.g == g
    {
      this.g := g;
    }

    method DeserializeBoolean(s: Bytes, cursor: nat, ret: Bytes) returns (r: Option<Read>)
      requires cursor <= |s|
      ensures r == match BooleanAt(s, cursor) case None => None case Some(item) => Some(Read(item.next, ret + item.out))
    {
      if cursor + 4 <= |s| && s[cursor..cursor + 4] == TRUE_TEXT {
        r := Some(Read(cursor + 4, ret + TRUE_TEXT));
      } else if cursor + 5 <= |s| && s[cursor..cursor + 5] == FALSE_TEXT {
        r := Some(Read(cursor + 5, ret + FALSE_TEXT));
      } else {
        r := None;
      }
    }

    method DeserializeInteger(s: Bytes, beg: nat, ret: Bytes) returns (r: Option<Read>)
      requires beg <= |s|
      ensures r == match IntegerAt(s, beg) case None => None case Some(item) => Some(Read(item.next, ret + item.out))
    {
      var cursor := beg;
      if cursor < |s| && s[cursor] == MINUS { cursor := cursor + 1; }
      ghost var q := cursor;
      while cursor < |s| && IsDigit(s[cursor])
        invariant q <= cursor <= |s| && DigitsEnd(s, cursor) == DigitsEnd(s, q)
      {
        cursor := cursor + 1;
      }
      if cursor > beg && (cursor - beg != 1 || s[beg] != MINUS) {
        r := Some(Read(cursor, ret + s[beg..cursor]));
      } else {
        r := None;
      }
    }

    method DeserializeNumber(s: Bytes, beg: nat, ret: Bytes) returns (r: Option<Read>)
      requires beg <= |s|
      ensures r == match NumberAt(s, beg) case None => None case Some(item) => Some(Read(item.next, ret + item.out))
    {
      var cursor, has_decimal_point := beg, false;
      if cursor < |s| && s[cursor] == MINUS { cursor := cursor + 1; }
      ghost var scan := NumberScan(s, cursor, false);
      while cursor < |s| && (IsDigit(s[cursor]) || s[cursor] == POINT)
        invariant beg <= cursor <= |s| && NumberScan(s, cursor, has_decimal_point) == scan
      {
        if s[cursor] == POINT && has_decimal_point { return None; }
        has_decimal_point := has_decimal_point || s[cursor] == POINT;
        cursor := cursor + 1;
      }
      if cursor > beg && (cursor - beg != 1 || (s[beg] != MINUS && s[beg] != POINT)) &&
        (!has_decimal_point || s[cursor - 1] != POINT)
      {
        r := Some(Read(cursor, ret + s[beg..cursor]));
      } else {
        r := None;
      }
    }

    method DeserializeString(s: Bytes, beg: nat, terminator: Byte, ret: Bytes) returns (r: Option<Read>)
      requires beg <= |s|
      ensures r == match StringFrom(s, beg, terminator, [])
                   case None => None
                   case Some(item) => Some(Read(item.next, ret + ([QUOTE] + item.out + [QUOTE])))
    {
      var cursor, out: Bytes := beg, [];
      ghost var whole := StringFrom(s, beg, terminator, []);
      while cursor < |s| && s[cursor] != terminator
        invariant beg <= cursor <= |s| && StringFrom(s, cursor, terminator, out) == whole
        decreases |s| - cursor
      {
        var c := s[cursor];
        cursor := cursor + 1;
        if c == PERCENT {
          if cursor + 1 >= |s| { return None; }
          var dec1, dec2 := HexValue(s[cursor]), HexValue(s[cursor + 1]);
          cursor := cursor + 2;
          if dec1.None? || dec2.None? { return None; }
          out := out + [dec1.value * 16 + dec2.value];
        } else if c == PLUS {
          out := out + [' ' as int];
        } else {
          out := out + [c];
        }
      }
      r := Some(Read(cursor, ret + ([QUOTE] + out + [QUOTE])));
    }

    method CheckNSkipChar(s: Bytes, cursor: nat, c: Byte) returns (r: Option<nat>)
      ensures r == SkipChar(s, cursor, c)
    {
      if cursor < |s| {
        if c == s[cursor] { r := Some(cursor + 1); } else { r := None; }
      } else {
        r := Some(cursor);
      }
    }

    method CheckNSkipName(s: Bytes, cursor: nat) returns (r: Option<nat>)
      ensures r == SkipName(s, cursor, g.name)
    {
      if cursor + |g.name| > |s| || s[cursor..cursor + |g.name|] != g.name {
        r := None;
      } else {
        r := Some(cursor + |g.name|);
      }
    }

    method CheckSeparator(s: Bytes, beg: nat) returns (r: Option<nat>)
      requires beg <= |s|
      ensures r == SeparatorAt(g, s, beg)
    {
      r := Some(beg);
      if beg < |s| {
        if g.has20Separator {
          r := CheckNSkipChar(s, beg, PERCENT);
          if r.Some? { r := CheckNSkipChar(s, r.value, '2' as int); }
          if r.Some? { r := CheckNSkipChar(s, r.value, '0' as int); }
        } else {
          r := CheckNSkipChar(s, beg, g.separator);
        }
        if r.Some? && r.value >= |s| { r := None; }
      }
    }

    method CheckRunningName(s: Bytes, beg: nat) returns (r: Option<nat>)
      requires beg <= |s|
      ensures r == NameAt(g, s, beg)
    {
      r := Some(beg);
      if g.runningName {
        r := CheckNSkipName(s, beg);
        if r.Some? { r := CheckNSkipChar(s, r.value, EQUALS); }
        if r.Some? && r.value >= |s| { r := None; }
      }
    }

    method DeserializeItem(s: Bytes, cursor: nat, ret: Bytes) returns (r: Option<Read>)
      requires cursor <= |s|
      ensures r == match ItemAt(g, s, cursor) case None => None case Some(item) => Some(Read(item.next, ret + item.out))
    {
      hide BooleanAt, IntegerAt, NumberAt, StringFrom;
      match g.items
      case BooleanItems => r := DeserializeBoolean(s, cursor, ret);
      case IntegerItems => r := DeserializeInteger(s, cursor, ret);
      case NumberItems => r := DeserializeNumber(s, cursor, ret);
      case StringItems => r := DeserializeString(s, cursor, g.separator, ret);
    }

    /** The four array loops, which differ only in the item. Each turn moves the cursor, so
        the loop ends on every input. */
    method DeserializeItems(s: Bytes, beg: nat, before: Bytes) returns (ret: Option<Bytes>)
      requires beg <= |s|
      ensures ret == ItemsFrom(g, s, beg, before)
    {
      var cursor, out := beg, before;
      hide NameAt, ItemAt, SeparatorAt;
      while cursor < |s|
        invariant beg <= cursor <= |s| && ItemsFrom(g, s, cursor, out) == ItemsFrom(g, s, beg, before)
        decreases |s| - cursor
      {
        var name := CheckRunningName(s, cursor);
        if name.None? { return None; }
        var item := DeserializeItem(s, name.value, out);
        if item.None? { return None; }
        var next := CheckSeparator(s, item.value.next);
        if next.None? { return None; }
        Progress(g, s, cursor);
        out := item.value.out + [COMMA];
        cursor := next.value;
      }
      ret := Some(out);
    }

    method Deserialize(s: Bytes) returns (ret: Option<Bytes>)
      ensures ret == Deserialized(g, s)
    {
      var cursor := 0;
      hide ItemsFrom;
      if g.start != 0 {
        if (if |s| > 0 then s[0] else 0) != g.start { return None; }
        cursor := 1;
      }
      if g.skipName && !g.runningName {
        var q := CheckNSkipName(s, cursor);
        if q.None? { return None; }
        q := CheckNSkipChar(s, q.value, EQUALS);
        if q.None? { return None; }
        cursor := q.value;
      }
      if cursor >= |s| { return None; }
      ret := DeserializeItems(s, cursor, ['[' as int]);
      if ret.Some? {
        var t := ret.value;
        if t != [] && t[|t| - 1] == COMMA {
          ret := Some(t[..|t| - 1] + [']' as int]);
        } else {
          ret := Some(t + [']' as int]);
        }
      }
    }
  }
}
