/** Lookups through the directory-entry cache (fs/namei.c): 64 remembered answers in front of
    the directories, all thrown away whenever a directory changes.  One device. */
module DirectoryCache {
  import opened Layout
  import opened Directory

  const DCACHE_SIZE: nat := 64

  // The name field has room for fourteen bytes and a NUL.
  type CachedName = f: seq<Byte> | |f| == NAME_LEN + 1 witness seq(NAME_LEN + 1, _ => 0)

  datatype Answer = Answer(valid: bool, dir: nat, target: nat, name: CachedName)

  type Dirs = map<nat, seq<Slot>>

  // What an uncached search answers; a number that is no directory has no entries.
  function Search(dirs: Dirs, dir: nat, name: Name): (r: Option<nat>) {
    if dir in dirs then Lookup(dirs[dir], Key(name)) else None
  }

  predicate Right(e: Answer, dirs: Dirs) {
    e.valid ==> Search(dirs, e.dir, Text(e.name)) == Some(e.target)
  }

  // Every answer kept is the one the directories would give now.
  ghost predicate Coherent(cache: seq<Answer>, dirs: Dirs) {
    forall i :: 0 <= i < |cache| ==> Right(cache[i], dirs)
  }

  predicate Hit(e: Answer, dir: nat, name: Name) {
    e.valid && e.dir == dir && NameEq(e.name, name)
  }

  // An answer under a matching name is the answer for that name.
  lemma HitIsRight(e: Answer, dirs: Dirs, dir: nat, name: Name)
    requires Right(e, dirs) && Hit(e, dir, name) && Clean(name)
    ensures Search(dirs, dir, name) == Some(e.target)
  {
  }

  // The name as it is written over what the field held before.
  function Write(f: CachedName, name: Name): (r: CachedName)
    ensures Clean(name) ==> Text(r) == Key(name)
  {
    var r: CachedName := Key(name) + [0] + f[|Key(name)| + 1..];
    assert Clean(name) ==> Text(r) == Key(name) by {
      if Clean(name) {
        NameEqIsText(r, name);
      }
    }
    r
  }

  class Namespace {
    var dirs: Dirs
    const cache: array<Answer>

    ghost predicate Valid()
      reads this, cache
    {
      && cache.Length == DCACHE_SIZE && Coherent(cache[..], dirs)
      && forall d :: d in dirs ==> Orderly(dirs[d])
    }

    constructor (d: Dirs)
      requires forall x :: x in d ==> Orderly(d[x])
      ensures Valid() && dirs == d && fresh(cache)
    {
      dirs := d;
      cache := new Answer[DCACHE_SIZE](_ => Answer(false, 0, 0, seq(NAME_LEN + 1, _ => 0)));
    }

    method Invalidate()
      requires cache.Length == DCACHE_SIZE
      modifies cache
      ensures forall i :: 0 <= i < DCACHE_SIZE ==> !cache[i].valid
      ensures Coherent(cache[..], dirs)
    {
      for i := 0 to DCACHE_SIZE
        invariant forall k :: 0 <= k < i ==> !cache[k].valid
      {
        cache[i] := cache[i].(valid := false);
      }
    }

    method LookupCached(dir: nat, name: Name) returns (r: Option<nat>)
      requires Valid() && Clean(name)
      ensures r.Some? ==> r == Search(dirs, dir, name)
    {
      for i := 0 to DCACHE_SIZE {
        if cache[i].valid && cache[i].dir == dir {
          var same := CompareNames(cache[i].name, name);
          if same {
            assert cache[..][i] == cache[i];
            HitIsRight(cache[i], dirs, dir, name);
            return Some(cache[i].target);
          }
        }
      }
      return None;
    }

    // The slot dcache_store fills: the one with that name, else a free one, else the first of
    // an emptied cache.
    method ChooseSlot(dir: nat, name: Name) returns (slot: nat)
      requires Valid()
      modifies cache
      ensures Valid() && slot < DCACHE_SIZE
      ensures forall i :: 0 <= i < DCACHE_SIZE ==> cache[i] == old(cache[i]) || !cache[i].valid
    {
      for i := 0 to DCACHE_SIZE
        invariant cache[..] == old(cache[..])
        invariant forall k :: 0 <= k < i ==> !Hit(cache[k], dir, name)
      {
        if cache[i].valid && cache[i].dir == dir {
          var same := CompareNames(cache[i].name, name);
          if same {
            return i;
          }
        }
      }
      for i := 0 to DCACHE_SIZE
        invariant cache[..] == old(cache[..])
      {
        if !cache[i].valid {
          return i;
        }
      }
      Invalidate();
      return 0;
    }

    method Store(dir: nat, name: Name, ino: nat)
      requires Valid() && Clean(name) && Search(dirs, dir, name) == Some(ino)
      modifies cache
      ensures Valid()
      ensures exists i :: 0 <= i < DCACHE_SIZE && Hit(cache[i], dir, name) && cache[i].target == ino
    {
      var slot := ChooseSlot(dir, name);
      var e := Answer(true, dir, ino, Write(cache[slot].name, name));
      NameEqIsText(e.name, name);
      ghost var was := cache[..];
      cache[slot] := e;
      assert cache[..] == was[slot := e];
      assert Hit(cache[slot], dir, name);
    }

    // The search of the slots.
    method Scan(dir: nat, name: Name) returns (r: Option<nat>)
      requires Clean(name) && dir in dirs
      ensures r == Search(dirs, dir, name)
    {
      var slots := dirs[dir];
      var i := 0;
      while i < |slots|
        invariant i <= |slots|
        invariant FirstNamed(slots, Key(name), 0) == FirstNamed(slots, Key(name), i)
      {
        var same := CompareNames(slots[i].name, name);
        NameEqIsText(slots[i].name, name);
        if same {
          return if slots[i].ino == 0 then None else Some(slots[i].ino);
        }
        i := i + 1;
      }
      return None;
    }

    // find_entry: the cache changes no answer, whatever was looked up before.
    method FindEntry(dir: nat, name: Name) returns (r: Option<nat>)
      requires Valid() && Clean(name)
      modifies cache
      ensures Valid() && r == Search(dirs, dir, name)
    {
      if dir !in dirs {
        return None;
      }
      r := LookupCached(dir, name);
      if r.Some? {
        return;
      }
      r := Scan(dir, name);
      if r.Some? {
        Store(dir, name, r.value);
      }
    }

    // The callers of dir_add_entry enter a name only after looking it up in vain.
    method Enter(dir: nat, name: Name, ino: nat, room: bool) returns (ok: bool)
      requires Valid() && Clean(name) && ino != 0
      modifies this, cache
      ensures Valid()
      ensures !ok ==> dirs == old(dirs)
      ensures ok ==> dir in old(dirs) && old(Search(dirs, dir, name)) == None
      ensures ok ==> dir in dirs && dirs == old(dirs)[dir := dirs[dir]]
      ensures ok ==> Listing(dirs[dir]) == Listing(old(dirs)[dir])[name := ino]
      ensures dir in old(dirs) && |name| <= NAME_LEN && room && old(Search(dirs, dir, name)) == None ==> ok
    {
      var there := FindEntry(dir, name);
      if there.Some? || dir !in dirs || |name| > NAME_LEN {
        return false;
      }
      AddEnters(dirs[dir], name, ino, room);
      hide Listing, Orderly;
      Invalidate();
      var i := FirstFreeSlot(dirs[dir]);
      var slot := Slot(ino, Pad(name));
      if i < |dirs[dir]| {
        dirs := dirs[dir := dirs[dir][i := slot]];
      } else if room {
        dirs := dirs[dir := dirs[dir] + [slot]];
      } else {
        return false;
      }
      return true;
    }

    static method FirstFreeSlot(slots: seq<Slot>) returns (i: nat)
      ensures i == FirstFree(slots, 0)
    {
      i := 0;
      while i < |slots| && slots[i].ino != 0
        invariant i <= |slots| && FirstFree(slots, 0) == FirstFree(slots, i)
      {
        i := i + 1;
      }
    }

    static method FirstLiveSlot(slots: seq<Slot>, name: Name) returns (i: nat)
      requires Clean(name)
      ensures i == FirstLiveNamed(slots, Key(name), 0)
    {
      i := 0;
      while i < |slots|
        invariant i <= |slots| && FirstLiveNamed(slots, Key(name), 0) == FirstLiveNamed(slots, Key(name), i)
      {
        NameEqIsText(slots[i].name, name);
        var same := CompareNames(slots[i].name, name);
        if slots[i].ino != 0 && same {
          return;
        }
        i := i + 1;
      }
    }

    // dir_remove_entry
    method Erase(dir: nat, name: Name) returns (ok: bool)
      requires Valid() && Clean(name) && dir in dirs
      modifies this, cache
      ensures Valid()
      ensures ok <==> Key(name) in Listing(old(dirs)[dir])
      ensures !ok ==> dirs == old(dirs)
      ensures ok ==> dir in dirs && dirs == old(dirs)[dir := dirs[dir]]
      ensures ok ==> Listing(dirs[dir]) == Listing(old(dirs)[dir]) - {Key(name)}
    {
      RemoveTakes(dirs[dir], Key(name));
      hide Listing, Orderly;
      var i := FirstLiveSlot(dirs[dir], name);
      if i == |dirs[dir]| {
        return false;
      }
      dirs := dirs[dir := dirs[dir][i := dirs[dir][i].(ino := 0)]];
      Invalidate();
      return true;
    }
  }
}
