/** JSON Pointer: `Parse` and `Stringify` in the string form and in the URI fragment form
    of RFC 6901, sections 3 and 6. */
module Pointers {
  import opened Common
  import opened Streams
  import opened Utf8

  datatype PointerParseErrorCode =
    | TokenMustBeginWithSolidus
    | InvalidEscape
    | InvalidPercentEncoding
    | CharacterMustPercentEncode

  const HASH: Byte := '#' as int
  const ZERO: Byte := '0' as int
  const ONE: Byte := '1' as int

  /** Any byte but the unreserved characters of section 2.3 of RFC 3986. */
  predicate NeedPercentEncode(c: Byte) {
    !(IsDigit(c) || 'A' as int <= c <= 'Z' as int || 'a' as int <= c <= 'z' as int
      || c == '-' as int || c == '.' as int || c == '_' as int || c == TILDE)
  }

  // ----- printing -----

  function Triplet(c: Byte): Bytes {
    [PERCENT, HexDigit(c / 16), HexDigit(c % 16)]
  }

  function Triplets(bs: Bytes): (r: Bytes)
    ensures |r| == 3 * |bs|
  {
    if bs == [] then [] else Triplet(bs[0]) + Triplets(bs[1..])
  }

  /** The text of the name from `j` on; nothing where the name is not UTF-8 and a URI
      fragment would have to encode it. */
  function NameText(name: Bytes, j: nat, uriFragment: bool): Option<Bytes>
    requires j <= |name|
    decreases |name| - j
  {
    if j == |name| then Some([])
    else
      var c := name[j];
      if uriFragment && c != TILDE && c != SLASH && NeedPercentEncode(c) then
        var d := DecodeAt(name, j);
        if !d.ok || d.pos > |name| || d.pos <= j then None
        else
          var rest := NameText(name, d.pos, uriFragment);
          if rest.None? then None else Some(Triplets(name[j..d.pos]) + rest.value)
      else
        var rest := NameText(name, j + 1, uriFragment);
        if rest.None? then None
        else Some((if c == TILDE then [TILDE, ZERO] else if c == SLASH then [TILDE, ONE] else [c]) + rest.value)
  }

  function NamesText(names: seq<Bytes>, uriFragment: bool): Option<Bytes> {
    if names == [] then Some([])
    else
      var first, rest := NameText(names[0], 0, uriFragment), NamesText(names[1..], uriFragment);
      if first.None? || rest.None? then None else Some([SLASH] + first.value + rest.value)
  }

  /** `Stringify`. */
  function Text(names: seq<Bytes>, uriFragment: bool): Option<Bytes> {
    var t := NamesText(names, uriFragment);
    if t.None? then None else Some((if uriFragment then [HASH] else []) + t.value)
  }

  // ----- parsing -----

  /** The byte of a `%XY` triplet at `i`. */
  function TripletAt(s: Bytes, i: nat): (r: Option<Byte>)
    ensures r.Some? ==> i + 3 <= |s|
  {
    if i + 3 > |s| || s[i] != PERCENT then None
    else
      var h, l := HexValue(s[i + 1]), HexValue(s[i + 2]);
      if h.None? || l.None? then None else Some(h.value * 16 + l.value)
  }

  /** The bytes of at most `n` consecutive triplets from `i` on. */
  function Unpercent(s: Bytes, i: nat, n: nat): (r: Bytes)
    ensures |r| <= n && (r != [] ==> i + 3 * |r| <= |s|)
    decreases n
  {
    if n == 0 || TripletAt(s, i).None? then [] else [TripletAt(s, i).value] + Unpercent(s, i + 3, n - 1)
  }

  lemma UnpercentNone(s: Bytes, i: nat)
    ensures Unpercent(s, i, 0) == []
  {
  }

  lemma UnpercentStep(s: Bytes, i: nat, n: nat, before: Bytes)
    requires n > 0
    ensures var c := TripletAt(s, i);
      before + Unpercent(s, i, n) == if c.None? then before else before + [c.value] + Unpercent(s, i + 3, n - 1)
  {
    hide TripletAt;
  }

  datatype Unit = Unit(bytes: Bytes, next: nat) | BadUnit(code: PointerParseErrorCode, offset: nat)

  /** What one character, escape or run of triplets at `i` adds to a name. */
  function UnitAt(s: Bytes, i: nat, uriFragment: bool): (u: Unit)
    requires i < |s|
    ensures u.Unit? ==> i < u.next <= |s| && 0 < |u.bytes| <= u.next - i
  {
    var c := s[i];
    if uriFragment && c == PERCENT then
      var view := Unpercent(s, i, 4);
      var d := DecodeAt(view, 0);
      if view == [] || !d.ok || d.pos > |view| || d.pos == 0 then BadUnit(InvalidPercentEncoding, i)
      else if d.pos == 1 then Unescaped(s, view[0], i + 3)
      else Unit(view[..d.pos], i + 3 * d.pos)
    else if uriFragment && NeedPercentEncode(c) then BadUnit(CharacterMustPercentEncode, i)
    else Unescaped(s, c, i + 1)
  }

  /** A character `c`, which ended at `i`, with the escapes `~0` and `~1` resolved. */
  function Unescaped(s: Bytes, c: Byte, i: nat): (u: Unit)
    requires i <= |s|
    ensures u.Unit? ==> i <= u.next <= |s| && |u.bytes| == 1
  {
    if c != TILDE then Unit([c], i)
    else if i < |s| && s[i] == ZERO then Unit([TILDE], i + 1)
    else if i < |s| && s[i] == ONE then Unit([SLASH], i + 1)
    else BadUnit(InvalidEscape, i)
  }

  /** The rest of a name from `i` on, after `name`. */
  function NameFrom(s: Bytes, i: nat, uriFragment: bool, name: Bytes): (u: Unit)
    requires i <= |s|
    ensures u.Unit? ==> i <= u.next <= |s| && |u.bytes| <= |name| + (u.next - i) && (u.next < |s| ==> s[u.next] == SLASH)
    decreases |s| - i
  {
    if i == |s| || s[i] == SLASH then Unit(name, i)
    else
      var u := UnitAt(s, i, uriFragment);
      if u.BadUnit? then u else NameFrom(s, u.next, uriFragment, name + u.bytes)
  }

  datatype Parsed = Names(names: seq<Bytes>) | Invalid(code: PointerParseErrorCode, offset: nat)

  /** The names from `i` on, after `names`. */
  function NamesFrom(s: Bytes, i: nat, uriFragment: bool, names: seq<Bytes>): Parsed
    requires i <= |s| && (i < |s| ==> s[i] == SLASH)
    decreases |s| - i
  {
    if i == |s| then Names(names)
    else
      var u := NameFrom(s, i + 1, uriFragment, []);
      if u.BadUnit? then Invalid(u.code, u.offset) else NamesFrom(s, u.next, uriFragment, names + [u.bytes])
  }

  /** `Parse`. */
  function ParseNames(s: Bytes): Parsed {
    var uriFragment := Peek(s, 0) == HASH;
    var i := if uriFragment then 1 else 0;
    if i != |s| && Peek(s, i) != SLASH then Invalid(TokenMustBeginWithSolidus, i)
    else NamesFrom(s, i, uriFragment, [])
  }

  // ----- printing and parsing undo each other -----

  lemma SitsThree(s: Bytes, i: nat, c: Byte, first: Bytes, rest: Bytes)
    requires Sits(s, i, [c] + (first + rest))
    ensures i < |s| && s[i] == c && Sits(s, i + 1, first) && Sits(s, i + 1 + |first|, rest)
    ensures |[c] + (first + rest)| == 1 + |first| + |rest|
  {
    SitsBoth(s, i, [c], first + rest);
    SitsAt(s, i, [c], 0);
    SitsBoth(s, i + 1, first, rest);
  }

  lemma TripletReads(s: Bytes, i: nat, c: Byte)
    requires Sits(s, i, Triplet(c))
    ensures TripletAt(s, i) == Some(c)
  {
    SitsAt(s, i, Triplet(c), 0);
    SitsAt(s, i, Triplet(c), 1);
    SitsAt(s, i, Triplet(c), 2);
    hide HexDigit, HexValue;
  }

  lemma {:induction false} TripletsRead(s: Bytes, i: nat, bs: Bytes, n: nat)
    requires Sits(s, i, Triplets(bs)) && |bs| <= n
    ensures bs <= Unpercent(s, i, n)
    decreases |bs|
  {
    if bs != [] {
      SitsBoth(s, i, Triplet(bs[0]), Triplets(bs[1..]));
      TripletReads(s, i, bs[0]);
      TripletsRead(s, i + 3, bs[1..], n - 1);
      assert bs == [bs[0]] + bs[1..];
    }
  }

  /** What is decoded depends only on the bytes of the character. */
  lemma DecodeLocal(a: Bytes, p: nat, b: Bytes, n: nat)
    requires DecodeAt(a, p).ok && p < DecodeAt(a, p).pos == p + n <= |a| && a[p..p + n] <= b
    ensures DecodeAt(b, 0).ok && DecodeAt(b, 0).pos == n
  {
    var c := a[p..p + n];
    assert n >= 1 ==> a[p] == c[0] == b[0];
    assert n >= 2 ==> a[p + 1] == c[1] == b[1];
    assert n >= 3 ==> a[p + 2] == c[2] == b[2];
    assert n >= 4 ==> a[p + 3] == c[3] == b[3];
  }

  /** What one step of printing puts for the name at `j`, and where the next begins. */
  function Piece(name: Bytes, j: nat, uriFragment: bool): (Bytes, nat)
    requires j < |name|
  {
    var c := name[j];
    if c == TILDE then ([TILDE, ZERO], j + 1)
    else if c == SLASH then ([TILDE, ONE], j + 1)
    else if uriFragment && NeedPercentEncode(c) then
      var d := DecodeAt(name, j);
      if d.ok && j < d.pos <= |name| then (Triplets(name[j..d.pos]), d.pos) else ([], j + 1)
    else ([c], j + 1)
  }

  lemma NameTextStep(name: Bytes, j: nat, uriFragment: bool)
    requires j < |name| && NameText(name, j, uriFragment).Some?
    ensures var (piece, next) := Piece(name, j, uriFragment);
      j < next <= |name| && NameText(name, next, uriFragment).Some? &&
      NameText(name, j, uriFragment).value == piece + NameText(name, next, uriFragment).value
    ensures var c := name[j];
      uriFragment && c != TILDE && c != SLASH && NeedPercentEncode(c) ==>
        DecodeAt(name, j).ok && j < DecodeAt(name, j).pos <= |name|
  {
    hide DecodeAt, Triplets;
  }

  /** One step of printing is read back as one unit. */
  lemma PieceReads(s: Bytes, i: nat, name: Bytes, j: nat, uriFragment: bool)
    requires j < |name| && NameText(name, j, uriFragment).Some?
    requires var (piece, next) := Piece(name, j, uriFragment); Sits(s, i, piece)
    ensures var (piece, next) := Piece(name, j, uriFragment);
      i < |s| && s[i] != SLASH && j < next <= |name| && UnitAt(s, i, uriFragment) == Unit(name[j..next], i + |piece|)
  {
    NameTextStep(name, j, uriFragment);
    var (piece, next) := Piece(name, j, uriFragment);
    var c := name[j];
    if c == TILDE || c == SLASH {
      SitsAt(s, i, piece, 0);
      SitsAt(s, i, piece, 1);
    } else if uriFragment && NeedPercentEncode(c) {
      PercentReads(s, i, name, j);
    } else {
      SitsAt(s, i, piece, 0);
    }
    hide DecodeAt, Triplets, Unpercent;
  }

  lemma PercentReads(s: Bytes, i: nat, name: Bytes, j: nat)
    requires j < |name| && name[j] != TILDE
    requires DecodeAt(name, j).ok && j < DecodeAt(name, j).pos <= |name| && DecodeAt(name, j).pos <= j + 4
    requires Sits(s, i, Triplets(name[j..DecodeAt(name, j).pos]))
    ensures var bs := name[j..DecodeAt(name, j).pos];
      i < |s| && s[i] == PERCENT && UnitAt(s, i, true) == Unit(bs, i + 3 * |bs|)
  {
    var n := DecodeAt(name, j).pos - j;
    var bs := name[j..j + n];
    hide DecodeAt, Triplets;
    TripletsRead(s, i, bs, 4);
    FirstTriplet(s, i);
    var view := Unpercent(s, i, 4);
    hide Unpercent;
    assert view[..n] == bs;
    DecodeLocal(name, j, view, n);
    assert n == 1 ==> bs == [view[0]];
  }

  lemma FirstTriplet(s: Bytes, i: nat)
    requires Unpercent(s, i, 4) != []
    ensures i < |s| && s[i] == PERCENT
  {
  }

  lemma ShortCharacter(name: Bytes, j: nat)
    ensures j < DecodeAt(name, j).pos <= j + 4
  {
  }

  /** A printed name is read back. */
  lemma {:induction false} NameReads(s: Bytes, i: nat, name: Bytes, j: nat, uriFragment: bool, acc: Bytes)
    requires j <= |name| && NameText(name, j, uriFragment).Some? && Sits(s, i, NameText(name, j, uriFragment).value)
    ensures NameFrom(s, i, uriFragment, acc) ==
            NameFrom(s, i + |NameText(name, j, uriFragment).value|, uriFragment, acc + name[j..])
    decreases |name| - j
  {
    hide *;
    if j == |name| {
      NameTextEnd(name, uriFragment);
      assert acc + name[j..] == acc;
    } else {
      var (piece, next) := Piece(name, j, uriFragment);
      NameTextStep(name, j, uriFragment);
      SitsBoth(s, i, piece, NameText(name, next, uriFragment).value);
      PieceReads(s, i, name, j, uriFragment);
      NameStep(s, i, uriFragment, acc);
      NameReads(s, i + |piece|, name, next, uriFragment, acc + name[j..next]);
      assert acc + name[j..next] + name[next..] == acc + name[j..];
    }
  }

  lemma WholeNameReads(s: Bytes, i: nat, name: Bytes, uriFragment: bool)
    requires NameText(name, 0, uriFragment).Some? && Sits(s, i, NameText(name, 0, uriFragment).value)
    requires var end := i + |NameText(name, 0, uriFragment).value|; end < |s| ==> s[end] == SLASH
    ensures NameFrom(s, i, uriFragment, []) == Unit(name, i + |NameText(name, 0, uriFragment).value|)
  {
    hide NameText, NameFrom;
    NameReads(s, i, name, 0, uriFragment, []);
    assert [] + name[0..] == name;
    NameStops(s, i + |NameText(name, 0, uriFragment).value|, uriFragment, name);
  }

  /** What one name and the rest of the text are to the parser. */
  lemma NamesTextParts(s: Bytes, i: nat, names: seq<Bytes>, uriFragment: bool)
    requires names != [] && NamesText(names, uriFragment).Some? && Sits(s, i, NamesText(names, uriFragment).value)
    ensures NameText(names[0], 0, uriFragment).Some? && NamesText(names[1..], uriFragment).Some?
    ensures var first, rest := NameText(names[0], 0, uriFragment).value, NamesText(names[1..], uriFragment).value;
      && |NamesText(names, uriFragment).value| == 1 + |first| + |rest| && i < |s| && s[i] == SLASH
      && Sits(s, i + 1, first) && Sits(s, i + 1 + |first|, rest)
  {
    NamesTextIs(names, uriFragment);
    hide *;
    SitsThree(s, i, SLASH, NameText(names[0], 0, uriFragment).value, NamesText(names[1..], uriFragment).value);
  }

  lemma NamesTextIs(names: seq<Bytes>, uriFragment: bool)
    requires names != [] && NamesText(names, uriFragment).Some?
    ensures var first, rest := NameText(names[0], 0, uriFragment), NamesText(names[1..], uriFragment);
      first.Some? && rest.Some? && NamesText(names, uriFragment).value == [SLASH] + (first.value + rest.value)
  {
    hide NameText;
  }

  lemma {:induction false} NamesRead(s: Bytes, i: nat, names: seq<Bytes>, uriFragment: bool, acc: seq<Bytes>)
    requires NamesText(names, uriFragment).Some? && Sits(s, i, NamesText(names, uriFragment).value)
    requires i + |NamesText(names, uriFragment).value| == |s|
    ensures i < |s| ==> s[i] == SLASH
    ensures NamesFrom(s, i, uriFragment, acc) == Names(acc + names)
    decreases |names|
  {
    hide *;
    if names == [] {
      NoNamesRead(s, i, uriFragment, acc);
      assert acc + names == acc;
    } else {
      NamesTextParts(s, i, names, uriFragment);
      var end := i + 1 + |NameText(names[0], 0, uriFragment).value|;
      NamesRead(s, end, names[1..], uriFragment, acc + [names[0]]);
      WholeNameReads(s, i + 1, names[0], uriFragment);
      NamesStep(s, i, uriFragment, acc);
      assert acc + [names[0]] + names[1..] == acc + names;
    }
  }

  lemma NoNamesRead(s: Bytes, i: nat, uriFragment: bool, acc: seq<Bytes>)
    requires i + |NamesText([], uriFragment).value| == |s|
    ensures i == |s| && NamesFrom(s, i, uriFragment, acc) == Names(acc)
  {
  }

  lemma NamesStep(s: Bytes, i: nat, uriFragment: bool, names: seq<Bytes>)
    requires i < |s| && s[i] == SLASH
    ensures var u := NameFrom(s, i + 1, uriFragment, []);
      NamesFrom(s, i, uriFragment, names) ==
      if u.BadUnit? then Invalid(u.code, u.offset) else NamesFrom(s, u.next, uriFragment, names + [u.bytes])
  {
    hide NameFrom;
  }

  lemma NameStep(s: Bytes, i: nat, uriFragment: bool, name: Bytes)
    requires i < |s| && s[i] != SLASH
    ensures var u := UnitAt(s, i, uriFragment);
      NameFrom(s, i, uriFragment, name) == if u.BadUnit? then u else NameFrom(s, u.next, uriFragment, name + u.bytes)
  {
    hide UnitAt;
  }

  lemma NameStops(s: Bytes, i: nat, uriFragment: bool, name: Bytes)
    requires i <= |s| && (i < |s| ==> s[i] == SLASH)
    ensures NameFrom(s, i, uriFragment, name) == Unit(name, i)
  {
  }

  /** Whatever `Stringify` prints, `Parse` reads the same names from it. */
  lemma PrintedPointerParses(names: seq<Bytes>, uriFragment: bool)
    requires Text(names, uriFragment).Some?
    ensures ParseNames(Text(names, uriFragment).value) == Names(names)
  {
    var t := NamesText(names, uriFragment).value;
    var s := Text(names, uriFragment).value;
    var i := if uriFragment then 1 else 0;
    assert s[i..i + |t|] == t;
    StartsWithSolidus(names, uriFragment);
    hide NamesText, NamesFrom;
    NamesRead(s, i, names, uriFragment, []);
    assert [] + names == names;
  }

  lemma StartsWithSolidus(names: seq<Bytes>, uriFragment: bool)
    ensures var t := NamesText(names, uriFragment); t.Some? && t.value != [] ==> t.value[0] == SLASH
  {
  }

  /** The string form prints every name; the URI fragment form prints exactly the names
      that are UTF-8. */
  lemma {:induction false} Printable(name: Bytes, j: nat)
    requires j <= |name|
    ensures NameText(name, j, false).Some?
    ensures NameText(name, j, true).Some? <==> WellFormed(name, j)
    decreases |name| - j
  {
    if j < |name| {
      Printable(name, j + 1);
      DecodeMatchesGrammar(name, j);
      ShortCharacter(name, j);
      if CharLength(name, j) > 0 && j + CharLength(name, j) <= |name| { Printable(name, j + CharLength(name, j)); }
      AsciiAlone(name, j);
      hide DecodeAt, CharLength, Triplets;
    }
  }

  /** An ASCII byte is a character of its own, and every other byte must be encoded. */
  lemma AsciiAlone(name: Bytes, j: nat)
    requires j < |name|
    ensures name[j] < 0x80 ==> CharLength(name, j) == 1
    ensures name[j] >= 0x80 ==> NeedPercentEncode(name[j])
    ensures CharLength(name, j) > 0 ==> j + CharLength(name, j) <= |name|
  {
  }

  lemma {:induction false} AllPrintable(names: seq<Bytes>)
    ensures Text(names, false).Some?
    ensures Text(names, true).Some? <==> forall i | 0 <= i < |names| :: WellFormed(names[i], 0)
    decreases |names|
  {
    if names != [] {
      Printable(names[0], 0);
      AllPrintable(names[1..]);
      hide NameText, WellFormed;
      assert forall i | 0 <= i < |names| :: names[i] == if i == 0 then names[0] else names[1..][i - 1];
    }
  }

  /** For every text that parses, printing its names and parsing again gives the same
      names: always in string form, and in URI fragment form exactly for UTF-8 names. */
  lemma ParsedPointerSurvives(s: Bytes)
    requires ParseNames(s).Names?
    ensures var names := ParseNames(s).names;
      && Text(names, false).Some? && ParseNames(Text(names, false).value) == Names(names)
      && (Text(names, true).Some? <==> forall i | 0 <= i < |names| :: WellFormed(names[i], 0))
      && (Text(names, true).Some? ==> ParseNames(Text(names, true).value) == Names(names))
  {
    hide ParseNames, Text, WellFormed;
    var names := ParseNames(s).names;
    AllPrintable(names);
    PrintedPointerParses(names, false);
    if Text(names, true).Some? { PrintedPointerParses(names, true); }
  }

  // ----- the two forms, byte by byte -----

  lemma {:induction false} NamePrintsBack(s: Bytes, i: nat, acc: Bytes)
    requires i <= |s| && NameFrom(s, i, false, acc).Unit?
    ensures var u := NameFrom(s, i, false, acc); acc <= u.bytes && NameText(u.bytes, |acc|, false) == Some(s[i..u.next])
    decreases |s| - i
  {
    var u := NameFrom(s, i, false, acc);
    if i < |s| && s[i] != SLASH {
      var one := UnitAt(s, i, false);
      UnitPrintsBack(s, i);
      hide UnitAt;
      NamePrintsBack(s, one.next, acc + one.bytes);
      assert u.bytes[|acc|] == (acc + one.bytes)[|acc|];
      assert s[i..u.next] == s[i..one.next] + s[one.next..u.next];
    } else {
      assert s[i..u.next] == [];
    }
  }

  lemma UnitPrintsBack(s: Bytes, i: nat)
    requires i < |s| && s[i] != SLASH && UnitAt(s, i, false).Unit?
    ensures var u := UnitAt(s, i, false);
      |u.bytes| == 1 && s[i..u.next] ==
        var c := u.bytes[0]; if c == TILDE then [TILDE, ZERO] else if c == SLASH then [TILDE, ONE] else [c]
  {
  }

  lemma {:induction false} NamesPrintBack(s: Bytes, i: nat, names: seq<Bytes>)
    requires i <= |s| && (i < |s| ==> s[i] == SLASH) && NamesFrom(s, i, false, names).Names?
    ensures var all := NamesFrom(s, i, false, names).names; names <= all && NamesText(all[|names|..], false) == Some(s[i..])
    decreases |s| - i
  {
    hide NameFrom, NameText, NamesText;
    var all := NamesFrom(s, i, false, names).names;
    if i < |s| {
      var u := NameFrom(s, i + 1, false, []);
      NamePrintsBack(s, i + 1, []);
      NamesPrintBack(s, u.next, names + [u.bytes]);
      var rest := all[|names| + 1..];
      assert all[|names|] == (names + [u.bytes])[|names|];
      assert all[|names|..] == [u.bytes] + rest;
      NamesTextCons(u.bytes, rest);
      assert s[i..] == [s[i]] + s[i + 1..u.next] + s[u.next..];
    } else {
      NoNamesText();
      assert all[|names|..] == [] && s[i..] == [];
    }
  }

  lemma NamesTextCons(name: Bytes, rest: seq<Bytes>)
    requires NameText(name, 0, false).Some? && NamesText(rest, false).Some?
    ensures NamesText([name] + rest, false) == Some([SLASH] + NameText(name, 0, false).value + NamesText(rest, false).value)
  {
    hide NameText;
    assert ([name] + rest)[1..] == rest;
  }

  lemma NoNamesText()
    ensures NamesText([], false) == Some([])
  {
  }

  /** In string form a text is read as exactly the names it is the print of. */
  lemma StringForm(s: Bytes, names: seq<Bytes>)
    requires Peek(s, 0) != HASH
    ensures ParseNames(s) == Names(names) <==> Text(names, false) == Some(s)
  {
    if ParseNames(s) == Names(names) {
      NamesPrintBack(s, 0, []);
      assert names[0..] == names && s[0..] == s && [] + s == s;
    }
    if Text(names, false) == Some(s) { PrintedPointerParses(names, false); }
    hide NamesFrom, NamesText;
  }

  /** Section 2.3 of RFC 3986, by the codes of the characters. */
  predicate IsUnreserved(c: Byte) {
    0x41 <= c <= 0x5A || 0x61 <= c <= 0x7A || 0x30 <= c <= 0x39 || c == 0x2D || c == 0x2E || c == 0x5F || c == 0x7E
  }

  const UPPER_HEX: Bytes :=
    [0x30, 0x31, 0x32, 0x33, 0x34, 0x35, 0x36, 0x37, 0x38, 0x39, 0x41, 0x42, 0x43, 0x44, 0x45, 0x46]

  /** How one ASCII character of a name is printed: escaped as section 3 of RFC 6901 says, and
      in a URI fragment in upper-case triplets but for the unreserved ones. */
  lemma CharacterPrinted(c: Byte, uriFragment: bool)
    requires c < 0x80
    ensures NameText([c], 0, uriFragment) == Some(
      if c == 0x7E then [0x7E, 0x30]
      else if c == 0x2F then [0x7E, 0x31]
      else if uriFragment && !IsUnreserved(c) then [0x25, UPPER_HEX[c / 16], UPPER_HEX[c % 16]]
      else [c])
  {
    hide NeedPercentEncode, IsUnreserved, DecodeAt, Triplets;
    var name: Bytes := [c];
    Unreserved(c);
    assert NameText(name, 1, uriFragment) == Some([]);
    if uriFragment && c != TILDE && c != SLASH && NeedPercentEncode(c) {
      DecodesAlone(c);
      assert name[0..1] == name;
      TripletPrinted(c);
      assert NameText(name, 0, uriFragment) == Some(Triplets(name) + []) && Triplets(name) + [] == Triplets(name);
    } else {
      var t := if c == TILDE then [TILDE, ZERO] else if c == SLASH then [TILDE, ONE] else [c];
      assert NameText(name, 0, uriFragment) == Some(t + []) && t + [] == t;
    }
  }

  lemma Unreserved(c: Byte)
    ensures NeedPercentEncode(c) <==> !IsUnreserved(c)
  {
  }

  lemma DecodesAlone(c: Byte)
    requires c < 0x80
    ensures DecodeAt([c], 0).ok && DecodeAt([c], 0).pos == 1
  {
  }

  lemma TripletPrinted(c: Byte)
    requires c < 0x80
    ensures Triplets([c]) == [0x25, UPPER_HEX[c / 16], UPPER_HEX[c % 16]]
  {
    assert [c][1..] == [];
    assert HexDigit(c / 16) == UPPER_HEX[c / 16] && HexDigit(c % 16) == UPPER_HEX[c % 16];
  }

  // ----- array indices -----

  const INVALID_INDEX: nat := 0xFFFF_FFFF

  predicate IsNumber(name: Bytes) {
    name != [] && (forall i | 0 <= i < |name| :: IsDigit(name[i])) && (|name| > 1 ==> name[0] != ZERO)
  }

  /** The conversion loop: 32 bits wide, giving up when a step makes the number smaller. */
  function IndexFrom(name: Bytes, j: nat, n: nat): nat
    requires j <= |name| && forall i | 0 <= i < |name| :: IsDigit(name[i])
    decreases |name| - j
  {
    if j == |name| then n
    else
      var m := (n * 10 + (name[j] - ZERO)) % 0x1_0000_0000;
      if m < n then INVALID_INDEX else IndexFrom(name, j + 1, m)
  }

  function IndexOf(name: Bytes): nat {
    if IsNumber(name) then IndexFrom(name, 0, 0) else INVALID_INDEX
  }

  /** Below 2^32 the index is the number the digits denote. */
  lemma {:induction false} IndexIsValue(name: Bytes, j: nat)
    requires IsNumber(name) && DecValue(name) < 0x1_0000_0000 && j <= |name|
    ensures DecValue(name[..j]) <= DecValue(name)
    ensures IndexFrom(name, j, DecValue(name[..j])) == DecValue(name)
    decreases |name| - j
  {
    if j == |name| {
      assert name[..j] == name;
    } else {
      assert name[..j + 1][..j] == name[..j];
      IndexIsValue(name, j + 1);
      assert IsDigit(name[j]);
    }
  }

  /** What section 4 of RFC 6901 takes for an index: a zero, or digits of which the first is
      none. Any other name has the invalid one. */
  lemma IndexNames(name: Bytes)
    ensures IsNumber(name) <==>
      name == [0x30] || (name != [] && 0x31 <= name[0] <= 0x39 && forall i | 0 <= i < |name| :: 0x30 <= name[i] <= 0x39)
    ensures !IsNumber(name) ==> IndexOf(name) == 4294967295
  {
  }

  // ----- the parser itself -----

  /** A name in the buffer, and its index. */
  datatype Token = Token(name: nat, length: nat, index: nat)

  class GenericPointer {
    var nameBuffer_: array<Byte>
    var tokens_: seq<Token>
    var parseErrorCode_: Option<PointerParseErrorCode>
    var parseErrorOffset_: nat

    constructor ()
      ensures tokens_ == [] && parseErrorCode_ == None && fresh(nameBuffer_)
    {
      nameBuffer_ := new Byte[0];
      tokens_, parseErrorCode_, parseErrorOffset_ := [], None, 0;
    }

    /** The tokens lie in the buffer, each with a terminator, and hold `names`. */
    ghost predicate Holds(names: seq<Bytes>)
      reads this, nameBuffer_
    {
      Tokens(nameBuffer_[..], nameBuffer_.Length, tokens_, names)
    }

    /** The same below a cursor, while names are still being added. */
    static predicate Tokens(buffer: Bytes, cursor: nat, tokens: seq<Token>, names: seq<Bytes>) {
      |tokens| == |names| && cursor <= |buffer| &&
      forall k | 0 <= k < |tokens| ::
        var t := tokens[k];
        t.name + t.length < cursor && buffer[t.name..t.name + t.length] == names[k] && buffer[t.name + t.length] == 0
        && t.index == IndexOf(names[k])
    }

    /** Up to four consecutive triplets. */
    static method TakeTriplets(source: Bytes, i: nat) returns (view: Bytes)
      ensures view == Unpercent(source, i, 4)
    {
      hide *;
      view := [];
      ghost var whole := Unpercent(source, i, 4);
      assert [] + whole == whole;
      var n := 0;
      while n < 4
        invariant 0 <= n == |view| <= 4 && whole == view + Unpercent(source, i + 3 * n, 4 - n)
      {
        UnpercentStep(source, i + 3 * n, 4 - n, view);
        var c := TripletAt(source, i + 3 * n);
        if c.None? { break; }
        view := view + [c.value];
        n := n + 1;
      }
      if n == 4 { UnpercentNone(source, i + 12); }
      assert view + [] == view;
    }

    /** One character, escape or run of triplets. */
    static method TakeUnit(source: Bytes, i: nat, uriFragment: bool) returns (u: Unit)
      requires i < |source|
      ensures u == UnitAt(source, i, uriFragment)
    {
      var c, next := source[i], i + 1;
      if uriFragment {
        if c == PERCENT {
          var view := TakeTriplets(source, i);
          var is_ := new StringStream(view);
          var ok, _ := Utf8.Decode(is_);
          if !ok || view == [] || is_.pos > |view| || is_.pos == 0 {
            return BadUnit(InvalidPercentEncoding, i);
          }
          if is_.pos != 1 {
            return Unit(view[..is_.pos], i + 3 * is_.pos);
          }
          c, next := view[0], i + 3;
        } else if NeedPercentEncode(c) {
          return BadUnit(CharacterMustPercentEncode, i);
        }
      }
      u := Unescaped(source, c, next);
    }

    /** Copies decoded bytes to the cursor. */
    method PutName(name: nat, bytes: Bytes)
      requires name + |bytes| <= nameBuffer_.Length
      modifies nameBuffer_
      ensures nameBuffer_[..name] == old(nameBuffer_[..name]) && nameBuffer_[name..name + |bytes|] == bytes
    {
      var k := 0;
      while k < |bytes|
        invariant 0 <= k <= |bytes| && nameBuffer_[..name] == old(nameBuffer_[..name])
        invariant nameBuffer_[name..name + k] == bytes[..k]
      {
        nameBuffer_[name + k] := bytes[k];
        k := k + 1;
      }
      assert bytes[..k] == bytes;
    }

    /** The inner loop: a name decoded into the buffer from `start` on. */
    method DecodeName(source: Bytes, from: nat, uriFragment: bool, start: nat) returns (i: nat, name: nat)
      requires start < from <= |source| == nameBuffer_.Length
      modifies this`parseErrorCode_, nameBuffer_
      ensures var u := NameFrom(source, from, uriFragment, []);
        && (u.BadUnit? ==> parseErrorCode_ == Some(u.code) && i == u.offset)
        && (u.Unit? ==> parseErrorCode_ == old(parseErrorCode_) && i == u.next && name == start + |u.bytes| < i <= |source|
                        && nameBuffer_[..start] == old(nameBuffer_[..start]) && nameBuffer_[start..name] == u.bytes)
    {
      i, name := from, start;
      ghost var low, whole := nameBuffer_[..start], NameFrom(source, from, uriFragment, []);
      ghost var bytes: Bytes := [];
      hide UnitAt, NameFrom, Unescaped;
      while i < |source| && source[i] != SLASH
        invariant from <= i <= |source| && name == start + |bytes| < i && parseErrorCode_ == old(parseErrorCode_)
        invariant nameBuffer_[..start] == low && nameBuffer_[start..name] == bytes
        invariant NameFrom(source, i, uriFragment, bytes) == whole
        decreases |source| - i
      {
        NameStep(source, i, uriFragment, bytes);
        var u := TakeUnit(source, i, uriFragment);
        if u.BadUnit? {
          parseErrorCode_ := Some(u.code);
          i := u.offset;
          return;
        }
        Below(nameBuffer_[..], start, name, low, bytes);
        PutName(name, u.bytes);
        Extended(nameBuffer_[..], name, low, bytes, u.bytes);
        bytes := bytes + u.bytes;
        name := name + |u.bytes|;
        i := u.next;
      }
      NameStops(source, i, uriFragment, bytes);
    }

    static lemma Below(buffer: Bytes, start: nat, name: nat, low: Bytes, bytes: Bytes)
      requires start <= name <= |buffer| && buffer[..start] == low && buffer[start..name] == bytes
      ensures buffer[..name] == low + bytes
    {
    }

    /** The buffer after a name has grown by `more`. */
    static lemma Extended(buffer: Bytes, name: nat, low: Bytes, bytes: Bytes, more: Bytes)
      requires name == |low| + |bytes| && name + |more| <= |buffer|
      requires buffer[..name] == low + bytes && buffer[name..name + |more|] == more
      ensures buffer[..|low|] == low && buffer[|low|..name + |more|] == bytes + more
    {
      assert buffer[..|low|] == buffer[..name][..|low|];
      assert buffer[|low|..name] == buffer[..name][|low|..];
    }

    /** One name with its terminator. */
    method ParseName(source: Bytes, from: nat, uriFragment: bool, start: nat) returns (i: nat, name: nat)
      requires start < from <= |source| == nameBuffer_.Length && parseErrorCode_ == None
      modifies this`parseErrorCode_, nameBuffer_
      ensures var u := NameFrom(source, from, uriFragment, []);
        && (u.BadUnit? ==> parseErrorCode_ == Some(u.code) && i == u.offset)
        && (u.Unit? ==> parseErrorCode_ == None && i == u.next && name == start + |u.bytes| + 1 <= i <= |source|
                        && nameBuffer_[..start] == old(nameBuffer_[..start]) && nameBuffer_[start..name - 1] == u.bytes
                        && nameBuffer_[name - 1] == 0)
    {
      ghost var u := NameFrom(source, from, uriFragment, []);
      hide NameFrom;
      i, name := DecodeName(source, from, uriFragment, start);
      if parseErrorCode_.Some? { return; }
      nameBuffer_[name] := 0;
      name := name + 1;
    }

    /** `Parse`: the name cursor stays behind the position in the source, so a buffer as
        long as the source is never overrun. */
    method Parse(source: Bytes)
      requires tokens_ == []
      modifies this
      ensures match ParseNames(source)
        case Names(names) => parseErrorCode_ == None && Holds(names)
        case Invalid(code, offset) => parseErrorCode_ == Some(code) && parseErrorOffset_ == offset && tokens_ == []
    {
      nameBuffer_ := new Byte[|source|](_ => 0);
      parseErrorCode_ := None;
      var name: nat, i: nat := 0, 0;
      var uriFragment := |source| > 0 && source[0] == HASH;
      if uriFragment { i := 1; }
      if i != |source| && source[i] != SLASH {
        parseErrorCode_, parseErrorOffset_ := Some(TokenMustBeginWithSolidus), i;
        return;
      }
      ghost var names: seq<Bytes> := [];
      ghost var whole := ParseNames(source);
      hide NameFrom, IndexOf;
      while i < |source|
        invariant name <= i <= |source| == nameBuffer_.Length && parseErrorCode_ == None && fresh(nameBuffer_)
        invariant i < |source| ==> source[i] == SLASH
        invariant Tokens(nameBuffer_[..], name, tokens_, names)
        invariant NamesFrom(source, i, uriFragment, names) == whole
        decreases |source| - i
      {
        ghost var u := NameFrom(source, i + 1, uriFragment, []);
        i, name := ParseToken(source, i, uriFragment, name, names);
        if parseErrorCode_.Some? {
          tokens_, parseErrorOffset_ := [], i;
          return;
        }
        names := names + [u.bytes];
      }
      WiderCursor(nameBuffer_[..], name, nameBuffer_.Length, tokens_, names);
    }

    /** One token from its solidus on. */
    method ParseToken(source: Bytes, from: nat, uriFragment: bool, start: nat, ghost names: seq<Bytes>) returns (i: nat, name: nat)
      requires start <= from < |source| == nameBuffer_.Length && parseErrorCode_ == None
      requires Tokens(nameBuffer_[..], start, tokens_, names)
      modifies this`parseErrorCode_, this`tokens_, nameBuffer_
      ensures var u := NameFrom(source, from + 1, uriFragment, []);
        && (u.BadUnit? ==> parseErrorCode_ == Some(u.code) && i == u.offset)
        && (u.Unit? ==> parseErrorCode_ == None && i == u.next && name <= i
                        && Tokens(nameBuffer_[..], name, tokens_, names + [u.bytes]))
    {
      hide NameFrom, Tokens, IndexOf;
      ghost var u := NameFrom(source, from + 1, uriFragment, []);
      ghost var before := nameBuffer_[..];
      i, name := ParseName(source, from + 1, uriFragment, start);
      if parseErrorCode_.Some? { return; }
      var index := IndexOf(nameBuffer_[start..name - 1]);
      ghost var now := nameBuffer_[..];
      assert now[..start] == nameBuffer_[..start] && before[..start] == old(nameBuffer_[..start]);
      assert now[start..name - 1] == nameBuffer_[start..name - 1];
      MoreTokens(before, now, start, tokens_, names, u.bytes);
      tokens_ := tokens_ + [Token(start, name - 1 - start, index)];
    }

    static lemma MoreTokens(before: Bytes, now: Bytes, start: nat, tokens: seq<Token>, names: seq<Bytes>, bytes: Bytes)
      requires Tokens(before, start, tokens, names) && |now| == |before| && start + |bytes| < |now|
      requires now[..start] == before[..start] && now[start..start + |bytes|] == bytes && now[start + |bytes|] == 0
      ensures Tokens(now, start + |bytes| + 1, tokens + [Token(start, |bytes|, IndexOf(bytes))], names + [bytes])
    {
      hide IndexOf;
      forall k | 0 <= k < |tokens|
        ensures var t := tokens[k]; now[t.name..t.name + t.length] == names[k] && now[t.name + t.length] == 0
      {
        var t := tokens[k];
        assert now[t.name..t.name + t.length] == now[..start][t.name..t.name + t.length];
        assert before[t.name..t.name + t.length] == before[..start][t.name..t.name + t.length];
        assert now[t.name + t.length] == now[..start][t.name + t.length] == before[..start][t.name + t.length];
      }
    }

    static lemma WiderCursor(buffer: Bytes, cursor: nat, wider: nat, tokens: seq<Token>, names: seq<Bytes>)
      requires Tokens(buffer, cursor, tokens, names) && cursor <= wider <= |buffer|
      ensures Tokens(buffer, wider, tokens, names)
    {
    }
  }

  // ----- the printer itself -----

  /** `Stringify`, for tokens that hold `names`. */
  method Stringify(names: seq<Bytes>, uriFragment: bool, os: OutputStream) returns (ok: bool)
    modifies os
    ensures ok <==> Text(names, uriFragment).Some?
    ensures ok ==> os.out == old(os.out) + Text(names, uriFragment).value
  {
    if uriFragment { os.Put(HASH); }
    ghost var hash := if uriFragment then [HASH] else [];
    ghost var done: Bytes := [];
    var t := 0;
    ok := true;
    assert names[0..] == names;
    hide NamesText, NameText;
    NamesTextStart(names, uriFragment);
    while t < |names|
      invariant 0 <= t <= |names| && ok && os.out == old(os.out) + hash + done
      invariant NamesText(names, uriFragment).Some? <==> NamesText(names[t..], uriFragment).Some?
      invariant NamesText(names, uriFragment).Some? ==>
                  NamesText(names, uriFragment).value == done + NamesText(names[t..], uriFragment).value
    {
      NamesTextStep(names, t, uriFragment, done);
      os.Put(SLASH);
      ok := StringifyName(names[t], uriFragment, os);
      if !ok { return; }
      Appended(old(os.out) + hash, done, [SLASH], NameText(names[t], 0, uriFragment).value);
      done := done + [SLASH] + NameText(names[t], 0, uriFragment).value;
      t := t + 1;
    }
    NamesTextEnd(names[t..], uriFragment, done);
    Appended(old(os.out), hash, done, []);
  }

  lemma Appended(a: Bytes, b: Bytes, c: Bytes, d: Bytes)
    ensures a + b + c + d == a + (b + c + d) && b + c + [] == b + c
  {
  }

  lemma NamesTextStart(names: seq<Bytes>, uriFragment: bool)
    ensures NamesText(names, uriFragment).Some? ==>
              NamesText(names, uriFragment).value == [] + NamesText(names, uriFragment).value
  {
  }

  lemma NamesTextEnd(names: seq<Bytes>, uriFragment: bool, done: Bytes)
    requires names == []
    ensures NamesText(names, uriFragment) == Some([]) && done + [] == done
  {
  }

  lemma NamesTextStep(names: seq<Bytes>, t: nat, uriFragment: bool, done: Bytes)
    requires t < |names|
    ensures var first, rest := NameText(names[t], 0, uriFragment), NamesText(names[t + 1..], uriFragment);
      && (NamesText(names[t..], uriFragment).Some? <==> first.Some? && rest.Some?)
      && (first.Some? && rest.Some? ==>
            done + NamesText(names[t..], uriFragment).value == done + [SLASH] + first.value + rest.value)
  {
    assert names[t..][0] == names[t] && names[t..][1..] == names[t + 1..];
    hide NameText;
  }

  method StringifyName(name: Bytes, uriFragment: bool, os: OutputStream) returns (ok: bool)
    modifies os
    ensures ok <==> NameText(name, 0, uriFragment).Some?
    ensures ok ==> os.out == old(os.out) + NameText(name, 0, uriFragment).value
  {
    var j := 0;
    ok := true;
    ghost var done: Bytes := [];
    ghost var whole := NameText(name, 0, uriFragment);
    hide Piece, NameText;
    Concats(whole, [], []);
    while j < |name|
      invariant 0 <= j <= |name| && ok && os.out == old(os.out) + done
      invariant whole.Some? <==> NameText(name, j, uriFragment).Some?
      invariant whole.Some? ==> whole.value == done + NameText(name, j, uriFragment).value
      decreases |name| - j
    {
      ghost var piece := Piece(name, j, uriFragment).0;
      if NameText(name, j, uriFragment).Some? { NameTextStep(name, j, uriFragment); }
      ok, j := StringifyPiece(name, j, uriFragment, os);
      if !ok { return; }
      Concats(NameText(name, j, uriFragment), done, piece);
      done := done + piece;
    }
    NameTextEnd(name, uriFragment);
    Concats(Some([]), done, []);
  }

  lemma NameTextEnd(name: Bytes, uriFragment: bool)
    ensures NameText(name, |name|, uriFragment) == Some([])
  {
  }

  lemma Concats(r: Option<Bytes>, a: Bytes, b: Bytes)
    ensures r.Some? ==> a + (b + r.value) == a + b + r.value && [] + r.value == r.value && a + [] == a
  {
  }

  /** One character of a name, or one run of triplets. */
  method StringifyPiece(name: Bytes, from: nat, uriFragment: bool, os: OutputStream) returns (ok: bool, j: nat)
    requires from < |name|
    modifies os
    ensures !ok ==> NameText(name, from, uriFragment).None?
    ensures ok ==> os.out == old(os.out) + Piece(name, from, uriFragment).0
    ensures ok ==> j == Piece(name, from, uriFragment).1 && from < j <= |name|
    ensures ok ==> (NameText(name, from, uriFragment).Some? <==> NameText(name, j, uriFragment).Some?)
  {
    hide DecodeAt, Triplets;
    var c := name[from];
    ok, j := true, from + 1;
    if c == TILDE {
      os.Put(TILDE);
      os.Put(ZERO);
    } else if c == SLASH {
      os.Put(TILDE);
      os.Put(ONE);
    } else if uriFragment && NeedPercentEncode(c) {
      var source := new StringStream(name);
      source.pos := from;
      var valid, _ := Utf8.Decode(source);
      if !valid || source.pos > |name| || source.pos <= from {
        return false, from;
      }
      PercentEncode(name[from..source.pos], os);
      j := source.pos;
    } else {
      os.Put(c);
    }
  }

  /** `PercentEncodeStream`: each byte as a triplet. */
  method PercentEncode(bs: Bytes, os: OutputStream)
    modifies os
    ensures os.out == old(os.out) + Triplets(bs)
  {
    var k := 0;
    while k < |bs|
      invariant 0 <= k <= |bs| && old(os.out) + Triplets(bs) == os.out + Triplets(bs[k..])
    {
      assert bs[k..][0] == bs[k] && bs[k..][1..] == bs[k + 1..];
      os.Put(PERCENT);
      os.Put(HexDigit(bs[k] / 16));
      os.Put(HexDigit(bs[k] % 16));
      k := k + 1;
    }
  }
}
