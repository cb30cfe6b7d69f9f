/** Directories (fs/namei.c): sequences of 16-byte slots, an inode number and a 14-byte name
    padded with NULs.  A slot with inode 0 is free but keeps its name. */
module Directory {
  import opened Layout

  const NAME_LEN: nat := 14

  type Name = seq<Byte>

  type Field = f: seq<Byte> | |f| == NAME_LEN witness seq(NAME_LEN, _ => 0)

  datatype Slot = Slot(ino: nat, name: Field)

  // ---------------------------------------------------------------------
  // Names
  // ---------------------------------------------------------------------

  // A C string of that text.
  predicate Clean(name: Name) {
    forall i :: 0 <= i < |name| ==> name[i] != 0
  }

  // A directory keeps fourteen bytes of a name.
  function Key(name: Name): (r: Name)
    ensures |r| <= NAME_LEN && r <= name
  {
    if |name| <= NAME_LEN then name else name[..NAME_LEN]
  }

  // The text in a name field of at least fourteen bytes.
  function Text(f: seq<Byte>): (r: Name)
    requires |f| >= NAME_LEN
    ensures |r| <= NAME_LEN && r <= f && Clean(r)
    ensures |r| < NAME_LEN ==> f[|r|] == 0
  {
    TextTo(f, NAME_LEN)
  }

  function TextTo(f: seq<Byte>, n: nat): (r: Name)
    requires n <= |f|
    ensures |r| <= n && r <= f && Clean(r)
    ensures |r| < n ==> f[|r|] == 0
  {
    if n == 0 then []
    else
      var r := TextTo(f, n - 1);
      if |r| < n - 1 || f[n - 1] == 0 then r else r + [f[n - 1]]
  }

  function Pad(name: Name): (f: Field)
    requires |name| <= NAME_LEN
    ensures name <= f && forall i :: |name| <= i < NAME_LEN ==> f[i] == 0
  {
    name + seq(NAME_LEN - |name|, _ => 0)
  }

  // What name_eq decides.
  predicate NameEq(f: seq<Byte>, name: Name)
    requires |f| >= NAME_LEN
  {
    Key(name) <= f && (|name| < NAME_LEN ==> f[|name|] == 0)
  }

  method CompareNames(f: seq<Byte>, name: Name) returns (r: bool)
    requires |f| >= NAME_LEN
    ensures r == NameEq(f, name)
  {
    var j := 0;
    while j < |name| && j < NAME_LEN
      invariant j <= |name| && j <= NAME_LEN
      invariant forall k :: 0 <= k < j ==> f[k] == name[k]
    {
      if f[j] != name[j] {
        return false;
      }
      j := j + 1;
    }
    return j < |name| || j == NAME_LEN || f[j] == 0;
  }

  // A field matches a C string exactly when its text is the string's first fourteen bytes.
  lemma NameEqIsText(f: seq<Byte>, name: Name)
    requires |f| >= NAME_LEN && Clean(name)
    ensures NameEq(f, name) <==> Text(f) == Key(name)
  {
  }

  lemma TextOfPad(name: Name)
    requires |name| <= NAME_LEN && Clean(name)
    ensures Text(Pad(name)) == name
  {
    NameEqIsText(Pad(name), name);
  }

  // ---------------------------------------------------------------------
  // Slots
  // ---------------------------------------------------------------------

  function TextAt(slots: seq<Slot>, i: nat): Name
    requires i < |slots|
  {
    Text(slots[i].name)
  }

  // The first slot from i on that carries the text, |slots| if there is none.
  function FirstNamed(slots: seq<Slot>, key: Name, i: nat): (r: nat)
    requires i <= |slots|
    ensures i <= r <= |slots|
    ensures r < |slots| ==> TextAt(slots, r) == key
    ensures forall k: nat :: i <= k < r ==> TextAt(slots, k) != key
    decreases |slots| - i
  {
    if i == |slots| || TextAt(slots, i) == key then i else FirstNamed(slots, key, i + 1)
  }

  // find_entry: the first slot of that name decides, free or not.
  function Lookup(slots: seq<Slot>, key: Name): (r: Option<nat>)
    ensures r.Some? ==> r.value != 0
  {
    var i := FirstNamed(slots, key, 0);
    if i < |slots| && slots[i].ino != 0 then Some(slots[i].ino) else None
  }

  // Every live slot is the first of its name.
  ghost predicate Orderly(slots: seq<Slot>) {
    forall i: nat, j: nat :: i < j < |slots| && TextAt(slots, i) == TextAt(slots, j) ==> slots[j].ino == 0
  }

  // The first live slot of that name, |slots| if there is none.
  function FirstLiveNamed(slots: seq<Slot>, key: Name, i: nat): (r: nat)
    requires i <= |slots|
    ensures i <= r <= |slots|
    ensures r < |slots| ==> slots[r].ino != 0 && TextAt(slots, r) == key
    ensures forall k: nat :: i <= k < r ==> !(slots[k].ino != 0 && TextAt(slots, k) == key)
    decreases |slots| - i
  {
    if i == |slots| || (slots[i].ino != 0 && TextAt(slots, i) == key) then i else FirstLiveNamed(slots, key, i + 1)
  }

  ghost predicate Listed(slots: seq<Slot>, key: Name) {
    exists i: nat :: i < |slots| && slots[i].ino != 0 && TextAt(slots, i) == key
  }

  // The names a directory holds and their inodes.
  ghost function Listing(slots: seq<Slot>): (m: map<Name, nat>)
    ensures forall key :: key in m <==> Listed(slots, key)
  {
    var keys := set i: nat | i < |slots| && slots[i].ino != 0 :: TextAt(slots, i);
    map key | key in keys :: InoOf(slots, key)
  }

  function InoOf(slots: seq<Slot>, key: Name): nat {
    var i := FirstLiveNamed(slots, key, 0);
    if i < |slots| then slots[i].ino else 0
  }

  lemma ListingAt(slots: seq<Slot>, i: nat)
    requires Orderly(slots) && i < |slots| && slots[i].ino != 0
    ensures Listed(slots, TextAt(slots, i)) && Listing(slots)[TextAt(slots, i)] == slots[i].ino
  {
  }

  // A map with the same live slots behind it is the listing.
  lemma ListingIs(slots: seq<Slot>, m: map<Name, nat>)
    requires Orderly(slots)
    requires forall key :: key in m ==> Listed(slots, key)
    requires forall i: nat :: i < |slots| && slots[i].ino != 0 ==>
               TextAt(slots, i) in m && m[TextAt(slots, i)] == slots[i].ino
    ensures Listing(slots) == m
  {
    hide Listing, Text;
    var l := Listing(slots);
    assert l.Keys == m.Keys;
    forall key | key in m ensures l[key] == m[key] {
      var i: nat :| i < |slots| && slots[i].ino != 0 && TextAt(slots, i) == key;
      ListingAt(slots, i);
    }
  }

  // In an orderly directory the first-slot rule finds exactly what is listed.
  lemma LookupIsListing(slots: seq<Slot>, key: Name)
    requires Orderly(slots)
    ensures Lookup(slots, key) == if key in Listing(slots) then Some(Listing(slots)[key]) else None
  {
    hide Listing, Text;
    var f := FirstNamed(slots, key, 0);
    if Listed(slots, key) {
      var i: nat :| i < |slots| && slots[i].ino != 0 && TextAt(slots, i) == key;
      assert f <= i && TextAt(slots, f) == TextAt(slots, i);
      ListingAt(slots, i);
    }
  }

  // ---------------------------------------------------------------------
  // Adding and removing
  // ---------------------------------------------------------------------

  // The first free slot, |slots| if there is none.
  function FirstFree(slots: seq<Slot>, i: nat): (r: nat)
    requires i <= |slots|
    ensures i <= r <= |slots|
    ensures r < |slots| ==> slots[r].ino == 0
    ensures forall k :: i <= k < r ==> slots[k].ino != 0
    decreases |slots| - i
  {
    if i == |slots| || slots[i].ino == 0 then i else FirstFree(slots, i + 1)
  }

  // dir_add_entry; `room` says whether the directory can get another block when it needs one.
  function Add(slots: seq<Slot>, name: Name, ino: nat, room: bool): (r: Option<seq<Slot>>) {
    if |name| > NAME_LEN then None
    else
      var i := FirstFree(slots, 0);
      if i < |slots| then Some(slots[i := Slot(ino, Pad(name))])
      else if room then Some(slots + [Slot(ino, Pad(name))])
      else None
  }

  // dir_remove_entry
  function Remove(slots: seq<Slot>, key: Name): (r: Option<seq<Slot>>) {
    var i := FirstLiveNamed(slots, key, 0);
    if i < |slots| then Some(slots[i := slots[i].(ino := 0)]) else None
  }

  // Adding a name that a lookup does not find enters it and changes no other.
  lemma AddEnters(slots: seq<Slot>, name: Name, ino: nat, room: bool)
    requires Orderly(slots) && Clean(name) && ino != 0 && Lookup(slots, Key(name)) == None
    ensures var r := Add(slots, name, ino, room);
            && (r.None? <==> |name| > NAME_LEN || (!room && FirstFree(slots, 0) == |slots|))
            && (r.Some? ==> Orderly(r.value) && Listing(r.value) == Listing(slots)[name := ino])
  {
    hide Listing, Text;
    var r := Add(slots, name, ino, room);
    if r.Some? {
      var i, s := FirstFree(slots, 0), r.value;
      TextOfPad(name);
      LookupIsListing(slots, name);
      assert TextAt(s, i) == name && s[i].ino == ino;
      assert forall k: nat :: k < |slots| && k != i ==> s[k] == slots[k] && TextAt(s, k) == TextAt(slots, k);
      forall k: nat | k < |slots| && slots[k].ino != 0 ensures TextAt(slots, k) != name {
        assert Listed(slots, TextAt(slots, k));
      }
      AddListing(slots, s, name, ino, i);
    }
  }

  lemma AddListing(slots: seq<Slot>, s: seq<Slot>, name: Name, ino: nat, i: nat)
    requires Orderly(slots) && i < |s| && ino != 0
    requires |s| == if i < |slots| then |slots| else |slots| + 1
    requires TextAt(s, i) == name && s[i].ino == ino
    requires forall k: nat :: k < |slots| && k != i ==> s[k] == slots[k] && TextAt(s, k) == TextAt(slots, k)
    requires i <= |slots| && (i < |slots| ==> slots[i].ino == 0) && forall k :: 0 <= k < i ==> slots[k].ino != 0
    requires forall k: nat :: k < |slots| && slots[k].ino != 0 ==> TextAt(slots, k) != name
    ensures Orderly(s) && Listing(s) == Listing(slots)[name := ino]
  {
    hide Listing, Text;
    var m := Listing(slots)[name := ino];
    forall key | key in m ensures Listed(s, key) {
      if key != name {
        var k: nat :| k < |slots| && slots[k].ino != 0 && TextAt(slots, k) == key;
        assert s[k].ino != 0 && TextAt(s, k) == key;
      }
    }
    forall k: nat | k < |s| && s[k].ino != 0 ensures TextAt(s, k) in m && m[TextAt(s, k)] == s[k].ino {
      if k != i {
        ListingAt(slots, k);
      }
    }
    ListingIs(s, m);
  }

  // Removing takes the name away and changes no other; it fails exactly when the name is not listed.
  lemma RemoveTakes(slots: seq<Slot>, key: Name)
    requires Orderly(slots)
    ensures var r := Remove(slots, key);
            && (r.Some? <==> key in Listing(slots))
            && (r.Some? ==> Orderly(r.value) && Listing(r.value) == Listing(slots) - {key})
  {
    hide Listing, Text;
    var i := FirstLiveNamed(slots, key, 0);
    if i < |slots| {
      var s := slots[i := slots[i].(ino := 0)];
      assert forall k: nat :: k < |s| ==> TextAt(s, k) == TextAt(slots, k);
      assert forall k: nat :: k < |s| && k != i ==> s[k] == slots[k];
      var m := Listing(slots) - {key};
      forall k: nat | k < |s| && s[k].ino != 0 ensures TextAt(s, k) in m && m[TextAt(s, k)] == s[k].ino {
        ListingAt(slots, k);
      }
      forall x | x in m ensures Listed(s, x) {
        var k: nat :| k < |slots| && slots[k].ino != 0 && TextAt(slots, k) == x;
        assert s[k].ino != 0 && TextAt(s, k) == x;
      }
      ListingIs(s, m);
    }
  }

  // Adding keeps the directory orderly exactly when the name was not there.
  lemma AddOrderlyIff(slots: seq<Slot>, name: Name, ino: nat, room: bool)
    requires Orderly(slots) && Clean(name) && ino != 0 && Add(slots, name, ino, room).Some?
    ensures Orderly(Add(slots, name, ino, room).value) <==> Lookup(slots, name) == None
  {
    if Lookup(slots, name) == None {
      AddEnters(slots, name, ino, room);
    } else {
      var s, f, e := Add(slots, name, ino, room).value, FirstFree(slots, 0), FirstNamed(slots, name, 0);
      TextOfPad(name);
      assert TextAt(s, e) == name && TextAt(s, f) == name && e != f && s[e].ino != 0 && s[f].ino != 0;
    }
  }

  // With a name entered twice, removing it leaves it listed but not to be found.
  lemma TwiceThenRemoved(slots: seq<Slot>, name: Name, ino: nat, room: bool)
    requires Orderly(slots) && Clean(name) && ino != 0 && Add(slots, name, ino, room).Some?
    requires Lookup(slots, name) != None
    ensures var r := Remove(Add(slots, name, ino, room).value, name);
            r.Some? && Listed(r.value, name) && Lookup(r.value, name) == None
  {
    var s, f, e := Add(slots, name, ino, room).value, FirstFree(slots, 0), FirstNamed(slots, name, 0);
    TextOfPad(name);
    hide Text;
    assert TextAt(s, e) == name && TextAt(s, f) == name && e != f && s[e].ino != 0 && s[f].ino != 0;
    var a := FirstLiveNamed(s, name, 0);
    var r := s[a := s[a].(ino := 0)];
    var b := if a == e then f else e;
    assert r[b].ino != 0 && TextAt(r, b) == name;
    assert forall k: nat :: k < |r| ==> TextAt(r, k) == TextAt(s, k);
    var g := FirstNamed(r, name, 0);
    assert g == a;
  }

  lemma RemoveFrees(slots: seq<Slot>, key: Name)
    requires Remove(slots, key).Some?
    ensures FirstFree(Remove(slots, key).value, 0) < |slots| == |Remove(slots, key).value|
  {
    var i := FirstLiveNamed(slots, key, 0);
    assert Remove(slots, key).value[i].ino == 0;
  }

  // sys_rename within one directory: out under the old name, in under the new one.  The guard
  // admits a new name that already stands for the same inode.
  function Rename(slots: seq<Slot>, from: Name, to: Name, room: bool): (r: Option<seq<Slot>>) {
    var ino, there := Lookup(slots, from), Lookup(slots, to);
    if ino.None? || (there.Some? && there != ino) then None
    else
      var out := Remove(slots, from);
      if out.None? then None else Add(out.value, to, ino.value, room)
  }

  // Rename succeeds exactly when the old name is there and the new one is not, or stands for the
  // same inode.
  lemma RenameWorksIff(slots: seq<Slot>, from: Name, to: Name, room: bool)
    requires Orderly(slots) && Clean(to) && |to| <= NAME_LEN
    ensures Rename(slots, from, to, room).Some? <==>
            from in Listing(slots) && (to !in Listing(slots) || Listing(slots)[to] == Listing(slots)[from])
  {
    LookupIsListing(slots, from);
    LookupIsListing(slots, to);
    RemoveTakes(slots, from);
    hide Listing, Orderly, Lookup, Remove;
    if Remove(slots, from).Some? {
      RemoveFrees(slots, from);
    }
  }

  // It moves the entry and keeps the directory orderly exactly when the new name was not there.
  lemma RenameMoves(slots: seq<Slot>, from: Name, to: Name, room: bool)
    requires Orderly(slots) && Clean(to) && |to| <= NAME_LEN && Rename(slots, from, to, room).Some?
    ensures var r := Rename(slots, from, to, room).value;
            && from in Listing(slots)
            && (Orderly(r) <==> from == to || to !in Listing(slots))
            && (from == to || to !in Listing(slots) ==>
                  Listing(r) == (Listing(slots) - {from})[to := Listing(slots)[from]])
  {
    LookupIsListing(slots, from);
    RemoveTakes(slots, from);
    hide Listing, Orderly, Lookup, Remove;
    var out := Remove(slots, from).value;
    var ino := Listing(slots)[from];
    LookupIsListing(out, to);
    assert Lookup(out, to) == None <==> from == to || to !in Listing(slots);
    assert Add(out, to, ino, room).Some?;
    hide Add;
    assert ino != 0 by {
      LookupIsListing(slots, from);
    }
    AddOrderlyIff(out, to, ino, room);
    if Lookup(out, to) == None {
      AddEnters(out, to, ino, room);
    }
  }

  // dir_entry_name: the text of the first slot with that inode number.
  function EntryName(slots: seq<Slot>, ino: nat): (r: Option<Name>)
    ensures r.Some? <==> exists i :: 0 <= i < |slots| && slots[i].ino == ino
  {
    var i := FirstWith(slots, ino, 0);
    if i < |slots| then Some(TextAt(slots, i)) else None
  }

  function FirstWith(slots: seq<Slot>, ino: nat, i: nat): (r: nat)
    requires i <= |slots|
    ensures i <= r <= |slots|
    ensures r < |slots| ==> slots[r].ino == ino
    ensures forall k :: i <= k < r ==> slots[k].ino != ino
    decreases |slots| - i
  {
    if i == |slots| || slots[i].ino == ino then i else FirstWith(slots, ino, i + 1)
  }

  // The name found for an inode leads back to it.
  lemma EntryNameLeadsBack(slots: seq<Slot>, ino: nat)
    requires Orderly(slots) && ino != 0 && EntryName(slots, ino).Some?
    ensures Lookup(slots, EntryName(slots, ino).value) == Some(ino)
  {
  }
}
