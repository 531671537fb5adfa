/**
 * A room's membership table and the colour a joining user is given (rooms.js).
 *
 * The table is the room's `userInfo` Map: entries keyed by user id, iterated in
 * insertion order. It is modelled as a sequence of entries with distinct ids;
 * setting an existing key replaces that entry where it stands, as `Map.set` does.
 */
module Membership {
  import opened Wrappers

  type UserId = string
  type Color = string

  /** A membership entry; `joinedAt` is the clock reading the caller supplies. */
  datatype UserInfo = UserInfo(userId: UserId, userName: string, color: Color, joinedAt: int)

  type Table = seq<UserInfo>

  /** The fixed colour palette, in the order colours are handed out. */
  const Palette: seq<Color> := [
    "#FF6B6B", "#4ECDC4", "#45B7D1", "#FFA07A", "#98D8C8",
    "#F7DC6F", "#BB8FCE", "#85C1E2", "#F8B739", "#52B788",
    "#E63946", "#A8DADC", "#F77F00", "#06FFA5", "#FF006E"
  ]

  /** The key set of a table. */
  function Ids(t: Table): set<UserId> {
    if t == [] then {} else {t[0].userId} + Ids(t[1..])
  }

  /** The colours in use in a table. */
  function Colors(t: Table): set<Color> {
    if t == [] then {} else {t[0].color} + Colors(t[1..])
  }

  /** No user id occurs twice (a Map has each key once). */
  predicate UniqueIds(t: Table) {
    t == [] || (t[0].userId !in Ids(t[1..]) && UniqueIds(t[1..]))
  }

  /** No colour is held by two entries. */
  predicate DistinctColors(t: Table) {
    t == [] || (t[0].color !in Colors(t[1..]) && DistinctColors(t[1..]))
  }

  /** `Map.get`: the entry stored under `u`. */
  function Lookup(t: Table, u: UserId): Option<UserInfo> {
    if t == [] then None
    else if t[0].userId == u then Some(t[0])
    else Lookup(t[1..], u)
  }

  /** `Map.set`: store `e` under its user id, replacing an existing entry in place. */
  function Put(t: Table, e: UserInfo): (r: Table)
    ensures Ids(r) == Ids(t) + {e.userId}
    ensures Colors(r) <= Colors(t) + {e.color}
    ensures Lookup(r, e.userId) == Some(e)
    ensures forall v :: v != e.userId ==> Lookup(r, v) == Lookup(t, v)
    ensures UniqueIds(t) ==> UniqueIds(r)
    ensures e.userId !in Ids(t) ==> r == t + [e]
    ensures e.userId in Ids(t) ==> |r| == |t|
    ensures UniqueIds(t) && e.userId in Ids(t) ==>
              exists i :: 0 <= i < |t| && t[i].userId == e.userId && r == t[i := e]
  {
    if t == [] then [e]
    else if t[0].userId == e.userId then
      assert [e] + t[1..] == t[0 := e];
      [e] + t[1..]
    else
      var rest := Put(t[1..], e);
      PutShift(t, e, rest);
      [t[0]] + rest
  }

  /** One step of `Put`'s in-place replacement: replacing at `i` in the tail is replacing at `i + 1`. */
  lemma PutShift(t: Table, e: UserInfo, rest: Table)
    requires t != [] && t[0].userId != e.userId
    requires UniqueIds(t[1..]) && e.userId in Ids(t[1..]) ==>
               exists i :: 0 <= i < |t[1..]| && t[1..][i].userId == e.userId && rest == t[1..][i := e]
    ensures UniqueIds(t) && e.userId in Ids(t) ==>
              exists i :: 0 <= i < |t| && t[i].userId == e.userId && [t[0]] + rest == t[i := e]
  {
    if UniqueIds(t) && e.userId in Ids(t) {
      var i :| 0 <= i < |t[1..]| && t[1..][i].userId == e.userId && rest == t[1..][i := e];
      assert [t[0]] + rest == t[i + 1 := e];
    }
  }

  /** `Map.delete`: drop the entry stored under `u`, if any. */
  function Remove(t: Table, u: UserId): (r: Table)
    ensures Ids(r) == Ids(t) - {u}
    ensures Colors(r) <= Colors(t)
    ensures Lookup(r, u) == None
    ensures forall v :: v != u ==> Lookup(r, v) == Lookup(t, v)
    ensures UniqueIds(t) ==> UniqueIds(r)
    ensures DistinctColors(t) ==> DistinctColors(r)
    ensures u !in Ids(t) ==> r == t
    ensures UniqueIds(t) && u in Ids(t) ==>
              exists i :: 0 <= i < |t| && t[i].userId == u && r == t[..i] + t[i + 1..]
  {
    if t == [] then []
    else if t[0].userId == u then
      var rest := Remove(t[1..], u);
      assert UniqueIds(t) ==> rest == t[..0] + t[1..];
      rest
    else
      var rest := Remove(t[1..], u);
      RemoveShift(t, u, rest);
      [t[0]] + rest
  }

  /** One step of `Remove`'s order-keeping deletion: removing at `i` in the tail is removing at `i + 1`. */
  lemma RemoveShift(t: Table, u: UserId, rest: Table)
    requires t != [] && t[0].userId != u
    requires UniqueIds(t[1..]) && u in Ids(t[1..]) ==>
               exists i :: 0 <= i < |t[1..]| && t[1..][i].userId == u && rest == t[1..][..i] + t[1..][i + 1..]
    ensures UniqueIds(t) && u in Ids(t) ==>
              exists i :: 0 <= i < |t| && t[i].userId == u && [t[0]] + rest == t[..i] + t[i + 1..]
  {
    if UniqueIds(t) && u in Ids(t) {
      var i :| 0 <= i < |t[1..]| && t[1..][i].userId == u && rest == t[1..][..i] + t[1..][i + 1..];
      assert [t[0]] + rest == t[..i + 1] + t[i + 2..];
    }
  }

  /** An entry found under `u` is stored under `u`, and a user has an entry exactly when its id is a key. */
  lemma {:induction false} LookupAgreesWithIds(t: Table, u: UserId)
    ensures Lookup(t, u).Some? <==> u in Ids(t)
    ensures Lookup(t, u).Some? ==> Lookup(t, u).value.userId == u && Lookup(t, u).value.color in Colors(t)
  {
    if t != [] && t[0].userId != u {
      LookupAgreesWithIds(t[1..], u);
    }
  }

  /** A table has no more colours in use than entries. */
  lemma {:induction false} ColorsAtMostEntries(t: Table)
    ensures |Colors(t)| <= |t|
  {
    if t != [] {
      ColorsAtMostEntries(t[1..]);
    }
  }

  /** The palette colours not in `used`, in palette order (the source's `availableColors`). */
  function Available(palette: seq<Color>, used: set<Color>): (a: seq<Color>)
    ensures forall c :: c in a <==> c in palette && c !in used
  {
    if palette == [] then []
    else if palette[0] in used then Available(palette[1..], used)
    else [palette[0]] + Available(palette[1..], used)
  }

  /**
   * The colour a joining user may get, given the palette and the room's table before
   * the join: the first available palette colour if there is one, and otherwise any
   * palette colour (the source draws one at random).
   */
  predicate ColorRule(palette: seq<Color>, t: Table, c: Color) {
    var a := Available(palette, Colors(t));
    if a != [] then c == a[0] else c in palette
  }

  /** The first available colour is the first palette colour, in palette order, that is unused. */
  lemma {:induction false} AvailableStartsAtFirstUnused(palette: seq<Color>, used: set<Color>)
    requires Available(palette, used) != []
    ensures exists k :: 0 <= k < |palette| && palette[k] == Available(palette, used)[0] &&
                        palette[k] !in used && forall j :: 0 <= j < k ==> palette[j] in used
  {
    if palette[0] in used {
      AvailableStartsAtFirstUnused(palette[1..], used);
      var k :| 0 <= k < |palette[1..]| && palette[1..][k] == Available(palette[1..], used)[0] &&
               palette[1..][k] !in used && forall j :: 0 <= j < k ==> palette[1..][j] in used;
      assert palette[k + 1] == Available(palette, used)[0];
      assert forall j :: 0 <= j < k + 1 ==> palette[j] in used by {
        forall j | 0 <= j < k + 1 ensures palette[j] in used {
          if j > 0 {
            assert palette[j] == palette[1..][j - 1];
          }
        }
      }
    } else {
      assert palette[0] == Available(palette, used)[0];
    }
  }

  predicate Distinct(s: seq<Color>) {
    forall i, j :: 0 <= i < j < |s| ==> s[i] != s[j]
  }

  function Elems(s: seq<Color>): set<Color> {
    if s == [] then {} else {s[0]} + Elems(s[1..])
  }

  lemma {:induction false} ElemsCard(s: seq<Color>)
    requires Distinct(s)
    ensures |Elems(s)| == |s|
    ensures forall c :: c in Elems(s) <==> c in s
  {
    if s != [] {
      ElemsCard(s[1..]);
      assert s[0] !in s[1..] by {
        forall j | 0 <= j < |s[1..]| ensures s[1..][j] != s[0] {
          assert s[1..][j] == s[j + 1];
        }
      }
    }
  }

  /** While fewer colours are used than the palette holds, some palette colour is available. */
  lemma {:induction false} PaletteNotExhausted(palette: seq<Color>, used: set<Color>)
    requires Distinct(palette)
    requires |used| < |palette|
    ensures Available(palette, used) != []
  {
    ElemsCard(palette);
    var all := Elems(palette);
    var unused := all - used;
    assert all <= unused + used;
    assert unused != {};
    var c :| c in unused;
    assert c in Available(palette, used);
  }

  lemma PaletteIsDistinct()
    ensures |Palette| == 15 && Distinct(Palette)
  {
  }

  /**
   * The chosen colour is always a palette colour; whenever some palette colour is
   * unused it is the first palette colour no entry holds, so it differs from every
   * current member's colour; and while the room has fewer entries than the palette
   * has colours, some palette colour is unused.
   */
  lemma ChosenColor(palette: seq<Color>, t: Table, c: Color)
    requires Distinct(palette)
    requires ColorRule(palette, t, c)
    ensures c in palette
    ensures |t| < |palette| ==> Available(palette, Colors(t)) != []
    ensures Available(palette, Colors(t)) != [] ==> c !in Colors(t) && c == Available(palette, Colors(t))[0]
    ensures Available(palette, Colors(t)) != [] ==>
              exists k :: 0 <= k < |palette| && palette[k] == c &&
                          forall j :: 0 <= j < k ==> palette[j] in Colors(t)
  {
    if |t| < |palette| {
      ColorsAtMostEntries(t);
      PaletteNotExhausted(palette, Colors(t));
    }
    if Available(palette, Colors(t)) != [] {
      AvailableStartsAtFirstUnused(palette, Colors(t));
    }
  }

  /**
   * Storing an entry whose colour no current entry holds gives it a colour that
   * no other member has, and keeps the colours of a table pairwise distinct.
   */
  lemma {:induction false} PutFreshColor(t: Table, e: UserInfo)
    requires e.color !in Colors(t)
    ensures forall v :: v != e.userId && Lookup(Put(t, e), v).Some? ==> Lookup(Put(t, e), v).value.color != e.color
    ensures DistinctColors(t) ==> DistinctColors(Put(t, e))
  {
    forall v | v != e.userId && Lookup(Put(t, e), v).Some?
      ensures Lookup(Put(t, e), v).value.color != e.color
    {
      LookupAgreesWithIds(t, v);
    }
    if t != [] && t[0].userId != e.userId {
      PutFreshColor(t[1..], e);
    }
  }
}
