/** When the path `ResolvePath` follows is the one a JSON Pointer names. */
module ReferencePaths {
  import opened Common
  import opened Json
  import Pointers
  import PathTries
  import References
  import Utf8

  /** A byte that stands for itself in a URI fragment and in a reference token. */
  predicate PlainByte(c: Byte) {
    !Pointers.NeedPercentEncode(c) && c != TILDE
  }

  /** From `i` on there is something, nothing is escaped or encoded, and no slash is last. */
  predicate PlainFrom(s: Bytes, i: nat) {
    i < |s| && s[|s| - 1] != SLASH && forall k | i <= k < |s| :: s[k] == SLASH || PlainByte(s[k])
  }

  /** What one unit of a name covers: no slash, and fewer bytes than its text unless it is a
      plain byte. */
  lemma UnitCovers(s: Bytes, i: nat)
    requires i < |s| && s[i] != SLASH && Pointers.UnitAt(s, i, true).Unit?
    ensures var u := Pointers.UnitAt(s, i, true);
      && (forall k | i <= k < u.next :: s[k] != SLASH)
      && (if PlainByte(s[i]) then u == Pointers.Unit([s[i]], i + 1) else |u.bytes| < u.next - i)
  {
    if s[i] == PERCENT {
      TripletsCover(s, i, 4);
    }
    hide Pointers.Unpercent, Utf8.DecodeAt;
  }

  lemma {:induction false} TripletsCover(s: Bytes, i: nat, n: nat)
    ensures var bs := Pointers.Unpercent(s, i, n);
      forall k | i <= k < i + 3 * |bs| :: k < |s| && s[k] != SLASH
    decreases n
  {
    if n > 0 && Pointers.TripletAt(s, i).Some? { TripletsCover(s, i + 3, n - 1); }
  }

  /** A name is its own text exactly when every byte of it is plain. */
  lemma {:induction false} NameIsText(s: Bytes, i: nat, name: Bytes)
    requires i <= |s|
    ensures var u, e := Pointers.NameFrom(s, i, true, name), PathTries.SeekFrom(s, i, |s|, SLASH);
      && (u.Unit? ==> u.next == e && |u.bytes| <= |name| + (e - i))
      && (if (forall k | i <= k < e :: PlainByte(s[k])) then u == Pointers.Unit(name + s[i..e], e)
          else u.Unit? ==> |u.bytes| < |name| + (e - i))
    decreases |s| - i
  {
    hide *;
    var e := PathTries.SeekFrom(s, i, |s|, SLASH);
    if i == |s| || s[i] == SLASH {
      NameEnds(s, i, name);
      assert name + s[i..i] == name;
    } else {
      var u := Pointers.UnitAt(s, i, true);
      NameGoesOn(s, i, name);
      if PlainByte(s[i]) { PlainUnit(s, i); }
      if u.Unit? {
        UnitCovers(s, i);
        SeekSame(s, i, u.next);
        NameIsText(s, u.next, name + u.bytes);
        if PlainByte(s[i]) { assert name + [s[i]] + s[i + 1..e] == name + s[i..e]; }
      }
    }
  }

  lemma NameEnds(s: Bytes, i: nat, name: Bytes)
    requires i <= |s| && (i < |s| ==> s[i] == SLASH)
    ensures Pointers.NameFrom(s, i, true, name) == Pointers.Unit(name, i) && PathTries.SeekFrom(s, i, |s|, SLASH) == i
  {
  }

  lemma NameGoesOn(s: Bytes, i: nat, name: Bytes)
    requires i < |s| && s[i] != SLASH
    ensures var u := Pointers.UnitAt(s, i, true);
      Pointers.NameFrom(s, i, true, name) == if u.BadUnit? then u else Pointers.NameFrom(s, u.next, true, name + u.bytes)
    ensures i < PathTries.SeekFrom(s, i, |s|, SLASH)
  {
    hide Pointers.UnitAt;
  }

  lemma PlainUnit(s: Bytes, i: nat)
    requires i < |s| && PlainByte(s[i])
    ensures Pointers.UnitAt(s, i, true) == Pointers.Unit([s[i]], i + 1)
  {
  }

  lemma {:induction false} SeekSame(s: Bytes, i: nat, j: nat)
    requires i <= j <= |s| && forall k | i <= k < j :: s[k] != SLASH
    ensures PathTries.SeekFrom(s, i, |s|, SLASH) == PathTries.SeekFrom(s, j, |s|, SLASH)
    decreases j - i
  {
    if i < j { SeekSame(s, i + 1, j); }
  }

  lemma {:induction false} NamesExtend(s: Bytes, i: nat, names: seq<Bytes>)
    requires i <= |s| && (i < |s| ==> s[i] == SLASH) && Pointers.NamesFrom(s, i, true, names).Names?
    ensures names <= Pointers.NamesFrom(s, i, true, names).names
    decreases |s| - i
  {
    if i < |s| {
      var u := Pointers.NameFrom(s, i + 1, true, []);
      hide Pointers.NameFrom;
      NamesExtend(s, u.next, names + [u.bytes]);
    }
  }

  /** The names after a slash are the fragments after it exactly when all is plain. */
  lemma {:induction false} NamesAreFragments(s: Bytes, i: nat, names: seq<Bytes>)
    requires i < |s| && s[i] == SLASH
    ensures var fragments := PathTries.Slices(s, PathTries.RangesFrom(s, i + 1));
      (Pointers.NamesFrom(s, i, true, names) == Pointers.Names(names + fragments)) <==> PlainFrom(s, i + 1)
    decreases |s| - i
  {
    hide *;
    NamesOnce(s, i, names);
    if i + 1 == |s| {
      TrailingSlash(s, names);
    } else {
      var e := PathTries.SeekFrom(s, i + 1, |s|, SLASH);
      var u := Pointers.NameFrom(s, i + 1, true, []);
      var rest := PathTries.Slices(s, PathTries.RangesFrom(s, e + 1));
      NameIsText(s, i + 1, []);
      PathTries.NextFragment(s, i + 1);
      PlainParts(s, i + 1, e);
      if u.Unit? {
        var now := names + [u.bytes];
        if e < |s| { NamesAreFragments(s, e, now); } else { NoneAfter(s, now); }
        if forall k | i + 1 <= k < e :: PlainByte(s[k]) {
          SameName(names, s[i + 1..e], rest);
          if e == |s| { assert now + rest == now; }
        } else {
          ShorterName(s, e, names, u.bytes, s[i + 1..e], rest);
        }
      }
    }
  }

  lemma SameName(names: seq<Bytes>, name: Bytes, rest: seq<Bytes>)
    ensures [] + name == name && names + ([name] + rest) == names + [name] + rest
  {
  }

  /** A name that came out shorter than its text is another one. */
  lemma ShorterName(s: Bytes, e: nat, names: seq<Bytes>, bytes: Bytes, name: Bytes, rest: seq<Bytes>)
    requires e <= |s| && (e < |s| ==> s[e] == SLASH) && |bytes| < |name|
    ensures Pointers.NamesFrom(s, e, true, names + [bytes]) != Pointers.Names(names + ([name] + rest))
  {
    hide *;
    var parsed := Pointers.NamesFrom(s, e, true, names + [bytes]);
    if parsed.Names? {
      NamesExtend(s, e, names + [bytes]);
      assert parsed.names[|names|] == bytes;
      assert (names + ([name] + rest))[|names|] == name;
    }
  }

  lemma NamesOnce(s: Bytes, i: nat, names: seq<Bytes>)
    requires i < |s| && s[i] == SLASH
    ensures var u := Pointers.NameFrom(s, i + 1, true, []);
      Pointers.NamesFrom(s, i, true, names) ==
      if u.BadUnit? then Pointers.Invalid(u.code, u.offset) else Pointers.NamesFrom(s, u.next, true, names + [u.bytes])
  {
    hide Pointers.NameFrom;
  }

  lemma NoneAfter(s: Bytes, names: seq<Bytes>)
    ensures Pointers.NamesFrom(s, |s|, true, names) == Pointers.Names(names)
    ensures PathTries.Slices(s, PathTries.RangesFrom(s, |s| + 1)) == []
  {
  }

  lemma TrailingSlash(s: Bytes, names: seq<Bytes>)
    requires s != [] && s[|s| - 1] == SLASH
    ensures Pointers.NamesFrom(s, |s| - 1, true, names) == Pointers.Names(names + [[]])
    ensures PathTries.Slices(s, PathTries.RangesFrom(s, |s|)) == [] && !PlainFrom(s, |s|)
    ensures names + [[]] != names + []
  {
    assert Pointers.NameFrom(s, |s|, true, []) == Pointers.Unit([], |s|);
    assert |names + [[]]| == |names| + 1;
  }

  /** Plain up to a slash and plain behind it. */
  lemma PlainParts(s: Bytes, i: nat, e: nat)
    requires i < |s| && i <= e <= |s| && (e < |s| ==> s[e] == SLASH) && forall k | i <= k < e :: s[k] != SLASH
    ensures PlainFrom(s, i) <==> (forall k | i <= k < e :: PlainByte(s[k])) && (e == |s| || PlainFrom(s, e + 1))
  {
    hide PlainByte;
  }

  lemma {:induction false} FragmentsShift(s: Bytes, t: Bytes, d: nat, p: nat)
    requires d <= |s| && t == s[d..]
    ensures PathTries.Slices(s, PathTries.RangesFrom(s, p + d)) == PathTries.Slices(t, PathTries.RangesFrom(t, p))
    decreases |t| - p
  {
    hide *;
    if p < |t| {
      var e := PathTries.SeekFrom(t, p, |t|, SLASH);
      SeekShift(s, t, d, p);
      PathTries.NextFragment(s, p + d);
      PathTries.NextFragment(t, p);
      assert t[p..e] == s[p + d..e + d];
      FragmentsShift(s, t, d, e + 1);
    } else {
      PathTries.PathTrie.NothingLeft(s, p + d);
      PathTries.PathTrie.NothingLeft(t, p);
    }
  }

  lemma {:induction false} SeekShift(s: Bytes, t: Bytes, d: nat, p: nat)
    requires d <= |s| && t == s[d..] && p <= |t|
    ensures PathTries.SeekFrom(s, p + d, |s|, SLASH) == PathTries.SeekFrom(t, p, |t|, SLASH) + d
    decreases |t| - p
  {
    if p < |t| { SeekShift(s, t, d, p + 1); }
  }

  /** A local reference is followed as the JSON Pointer it spells exactly when nothing in it
      is escaped or percent-encoded and it does not end in a slash: `ResolvePath` decodes
      nothing, and `getline` yields no empty token at the end. */
  lemma ReferenceIsPointer(m: Member)
    requires References.IsLocalRef(m)
    ensures var t := References.CString(m.value.s);
      (Pointers.ParseNames(t) == Pointers.Names(References.PathOf(m))) <==> PlainFrom(t, 2)
  {
    var t := References.CString(m.value.s);
    LocalIs(m, t);
    hide *;
    NamesAreFragments(t, 1, []);
    FragmentsShift(t, t[2..], 2, 0);
    assert [] + References.PathOf(m) == References.PathOf(m);
  }

  lemma LocalIs(m: Member, t: Bytes)
    requires References.IsLocalRef(m) && t == References.CString(m.value.s)
    ensures |t| >= 2 && t[1] == SLASH
    ensures References.PathOf(m) == PathTries.Slices(t[2..], PathTries.RangesFrom(t[2..], 0))
    ensures Pointers.ParseNames(t) == Pointers.NamesFrom(t, 1, true, [])
  {
    assert t[0] == '#' as int && t[1] == SLASH;
    hide Pointers.NamesFrom, PathTries.Slices, PathTries.RangesFrom, References.CString;
  }

  /** For instance `#/a~1b`, which the pointer reads as the name `a/b`, and `ResolvePath` as
      `a~1b`. */
  lemma EscapeIsKept(m: Member)
    requires m.name == [0x24, 0x72, 0x65, 0x66] // $ref
    requires m.value == String([0x23, 0x2F, 0x61, 0x7E, 0x31, 0x62]) // #/a~1b
    ensures References.IsLocalRef(m) && References.PathOf(m) == [[0x61, 0x7E, 0x31, 0x62]]
    ensures Pointers.ParseNames(m.value.s) == Pointers.Names([[0x61, 0x2F, 0x62]])
  {
    hide *;
    var name: Bytes, t := [0x61, 0x7E, 0x31, 0x62], m.value.s;
    SameCodes(m);
    EscapeCodes(t);
    RefersTo(t);
    LocalIs(m, t);
    OneFragment(name);
    NamesOnce(t, 1, []);
    NameWithEscape(t);
    EndsThere(t, [] + [[0x61, 0x2F, 0x62]]);
  }

  lemma EscapeCodes(t: Bytes)
    requires t == [0x23, 0x2F, 0x61, 0x7E, 0x31, 0x62]
    ensures t[2..] == [0x61, 0x7E, 0x31, 0x62] && SLASH !in t[2..] && t[1] == SLASH && References.LOCAL <= t
    ensures forall i | 0 <= i < |t| :: t[i] != 0
  {
  }

  /** What stands behind a zero in the name of a member does not matter. */
  lemma NameWithZero(m: Member, rest: Bytes)
    requires m.name == [0x24, 0x72, 0x65, 0x66, 0x00] + rest && m.value.String? && References.LOCAL <= References.CString(m.value.s)
    ensures References.IsLocalRef(m)
  {
    var ref: Bytes := [0x24, 0x72, 0x65, 0x66];
    assert ref == References.REF && m.name == ref + [0] + rest;
    ZeroEnds(ref, rest);
    hide References.CString;
  }

  lemma SameCodes(m: Member)
    ensures m.name == [0x24, 0x72, 0x65, 0x66] ==> m.name == References.REF
    ensures References.LOCAL == [0x23, 0x2F] && SLASH == 0x2F && TILDE == 0x7E
  {
  }

  lemma RefersTo(t: Bytes)
    requires References.LOCAL <= t && forall i | 0 <= i < |t| :: t[i] != 0
    ensures References.IsLocalRef(Member(References.REF, String(t))) && References.CString(t) == t
  {
    hide References.CString;
    NoZero(t);
    NoZero(References.REF);
  }

  lemma EndsThere(t: Bytes, names: seq<Bytes>)
    ensures Pointers.NamesFrom(t, |t|, true, names) == Pointers.Names(names)
  {
  }

  lemma {:induction false} NoZero(s: Bytes)
    requires forall i | 0 <= i < |s| :: s[i] != 0
    ensures References.CString(s) == s
  {
    if s != [] { NoZero(s[1..]); }
  }

  /** Behind a zero nothing of a text is seen. */
  lemma {:induction false} ZeroEnds(s: Bytes, rest: Bytes)
    requires forall i | 0 <= i < |s| :: s[i] != 0
    ensures References.CString(s + [0] + rest) == s
  {
    if s == [] {
      assert ([] + [0] + rest)[0] == 0;
    } else {
      assert (s + [0] + rest)[1..] == s[1..] + [0] + rest;
      ZeroEnds(s[1..], rest);
    }
  }

  lemma OneFragment(name: Bytes)
    requires name != [] && SLASH !in name
    ensures PathTries.Slices(name, PathTries.RangesFrom(name, 0)) == [name]
  {
    SeekSame(name, 0, |name|);
    PathTries.NextFragment(name, 0);
    PathTries.PathTrie.NothingLeft(name, |name| + 1);
    assert name[0..|name|] == name;
  }

  lemma NameStep(t: Bytes, i: nat, bytes: Bytes, next: nat, name: Bytes)
    requires i < |t| && t[i] != SLASH && next <= |t| && Pointers.UnitAt(t, i, true) == Pointers.Unit(bytes, next)
    ensures Pointers.NameFrom(t, i, true, name) == Pointers.NameFrom(t, next, true, name + bytes)
  {
  }

  lemma NameWithEscape(t: Bytes)
    requires t == [0x23, 0x2F, 0x61, 0x7E, 0x31, 0x62]
    ensures Pointers.NameFrom(t, 2, true, []) == Pointers.Unit([0x61, 0x2F, 0x62], 6)
  {
    PlainUnit(t, 2);
    PlainUnit(t, 5);
    NameStep(t, 2, ['a' as int], 3, []);
    NameStep(t, 3, [SLASH], 5, [] + ['a' as int]);
    NameStep(t, 5, ['b' as int], 6, [] + ['a' as int] + [SLASH]);
    hide Pointers.UnitAt;
  }

  /** In `{"a":{"b":null}}` the path `a`, `b` leads to null, and `b` nowhere. */
  lemma PathLeads()
    ensures var d := Object([Member([0x61], Object([Member([0x62], Null)]))]);
      && References.Lookup(d, [[0x61], [0x62]]) == Some(Null)
      && References.Lookup(d, [[0x62]]) == None
  {
    NoZero([0x61]);
    NoZero([0x62]);
    var path: References.Path := [[0x61], [0x62]];
    assert path[1..] == [[0x62]] && path[1..][1..] == [];
    hide References.CString;
  }
}
