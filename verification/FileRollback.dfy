/**
 * What a failed run of the installer's file actions leaves behind.
 *
 * Each action is described path by path, first on its own and then along a whole run and
 * its rollback. The main theorem says exactly when every file outside the motd backup is
 * back to what it was.
 */
module FileRollback {
  import opened Prelude
  import opened Transaction
  import opened FileActions

  /** No file lies below another file. */
  predicate WellFormed(files: FileMap) {
    forall p, q :: p in files && q in files ==> !(p < q)
  }

  function InMotd(p: Path): Path
    requires BACKUP <= p
  {
    Moved(p, BACKUP, MOTD)
  }

  function InBackup(p: Path): Path
    requires MOTD <= p
  {
    Moved(p, MOTD, BACKUP)
  }

  lemma There(p: Path)
    ensures !(MOTD <= p && BACKUP <= p)
    ensures MOTD <= p ==> BACKUP <= InBackup(p) && InMotd(InBackup(p)) == p && |InBackup(p)| == |p| + 2
    ensures BACKUP <= p ==> MOTD <= InMotd(p) && InBackup(InMotd(p)) == p && |InMotd(p)| == |p| - 2
  {
    if MOTD <= p {
      assert p[0] == "etc";
      assert InMotd(InBackup(p)) == p;
    }
    if BACKUP <= p {
      assert p[0] == "var";
      assert InBackup(InMotd(p)) == p;
    }
  }

  // ------------------------------------------------------------ single calls, well formed

  lemma CreatedWellFormed(files: FileMap, dst: Path, c: Contents)
    requires WellFormed(files) && !Blocked(files, dst)
    ensures WellFormed(files[dst := c])
  {
  }

  /** Copying a script touches the destination only, and on success fills it. */
  lemma CopyScriptAt(e: Env, w: World, src: Path, dst: Path, p: Path)
    requires WellFormed(w.files) && src != dst
    ensures var r := CopyScript(e, w, src, dst);
      && WellFormed(r.world.files)
      && (p != dst ==> At(r.world.files, p) == At(w.files, p))
      && (r.err.None? ==> src in w.files && At(r.world.files, dst) == At(w.files, src))
  {
    if !Blocked(w.files, dst) {
      hide Blocked, WellFormed;
      var r := CopyScript(e, w, src, dst);
      if r.world.files != w.files {
        CreatedWellFormed(w.files, dst, r.world.files[dst]);
        assert r.world.files == w.files[dst := r.world.files[dst]];
      }
    }
  }

  lemma CopyFileAt(e: Env, w: World, src: Path, dst: Path, p: Path)
    requires WellFormed(w.files)
    ensures var r := CopyFile(e, w, src, dst);
      && WellFormed(r.world.files)
      && (p != dst ==> At(r.world.files, p) == At(w.files, p))
      && (r.err.None? && src != dst ==> src in w.files && At(r.world.files, dst) == At(w.files, src))
  {
    if !Blocked(w.files, dst) {
      hide Blocked, WellFormed;
      var r := CopyFile(e, w, src, dst);
      if r.world.files != w.files {
        CreatedWellFormed(w.files, dst, r.world.files[dst]);
        assert r.world.files == w.files[dst := r.world.files[dst]];
      }
    }
  }

  lemma RemoveAllAt(e: Env, w: World, d: Path, p: Path)
    requires WellFormed(w.files)
    ensures var r := RemoveAll(e, w, d);
      && WellFormed(r.world.files)
      && (!(d <= p) ==> At(r.world.files, p) == At(w.files, p))
      && (At(r.world.files, p) == At(w.files, p) || At(r.world.files, p) == None)
      && (r.err.None? && d <= p ==> At(r.world.files, p) == None)
  {
  }

  lemma RemoveAt(e: Env, w: World, q: Path, p: Path)
    requires WellFormed(w.files)
    ensures var r := Remove(e, w, q);
      && WellFormed(r.world.files)
      && (p != q ==> At(r.world.files, p) == At(w.files, p))
      && (At(r.world.files, p) == At(w.files, p) || At(r.world.files, p) == None)
      && (r.err.None? ==> At(r.world.files, q) == None)
      && (r.err.Some? ==> At(r.world.files, p) == At(w.files, p))
  {
  }

  // ------------------------------------------------------------------------- motd loops

  /** Entries of one directory, each once. */
  ghost predicate Listing(l: seq<Path>, d: Path) {
    && AllBelow(l, d)
    && (forall i :: 0 <= i < |l| ==> |l[i]| == |d| + 1)
    && (forall i, j :: 0 <= i < j < |l| ==> l[i] != l[j])
  }

  lemma ListingTail(l: seq<Path>, d: Path)
    requires Listing(l, d) && l != []
    ensures Listing(l[1..], d) && AllBelow(l[1..], d) && l[0] !in l[1..]
    ensures forall p :: p in l <==> p == l[0] || p in l[1..]
  {
    assert l == [l[0]] + l[1..];
  }

  lemma EntriesListing(e: Env, files: FileMap, d: Path)
    requires Faithful(e)
    ensures Listing(e.listing(Entries(files, d)), d)
    ensures forall p :: p in e.listing(Entries(files, d)) <==> p in Entries(files, d)
  {
    ListedBelow(e, files, d);
    var l := e.listing(Entries(files, d));
    forall i | 0 <= i < |l|
      ensures |l[i]| == |d| + 1
    {
      assert l[i] in Entries(files, d);
    }
  }

  /** The move loop at any path outside the backup. */
  lemma {:induction false} MoveAllAt(e: Env, w: World, l: seq<Path>, p: Path)
    requires WellFormed(w.files) && Listing(l, MOTD) && !(BACKUP <= p)
    ensures var r := MoveAll(e, w, l);
      && WellFormed(r.world.files)
      && (p !in l ==> At(r.world.files, p) == At(w.files, p))
      && (At(r.world.files, p) == At(w.files, p) || At(r.world.files, p) == None)
      && (r.err.None? && p in l ==> p in w.files && At(r.world.files, p) == None)
    decreases |l|
  {
    if l != [] {
      hide WellFormed, Listing, CopyScript, Remove;
      ListingTail(l, MOTD);
      MoveOne(e, w, l[0], p);
      var c := CopyScript(e, w, l[0], InBackup(l[0]));
      var r := Remove(e, c.world, l[0]);
      if c.err.None? && r.err.None? {
        MoveAllAt(e, r.world, l[1..], p);
      }
    }
  }

  /** One turn of the move loop, outside the backup. */
  lemma MoveOne(e: Env, w: World, src: Path, p: Path)
    requires WellFormed(w.files) && MOTD < src && !(BACKUP <= p)
    ensures var c := CopyScript(e, w, src, InBackup(src));
      var r := Remove(e, c.world, src);
      && WellFormed(c.world.files) && WellFormed(r.world.files)
      && At(c.world.files, p) == At(w.files, p)
      && (p != src ==> At(r.world.files, p) == At(w.files, p))
      && (At(r.world.files, p) == At(w.files, p) || At(r.world.files, p) == None)
      && (c.err.None? ==> src in w.files)
      && (r.err.None? ==> At(r.world.files, src) == None)
      && (r.err.Some? ==> At(r.world.files, p) == At(w.files, p))
  {
    hide WellFormed, CopyScript, Remove;
    There(src);
    There(p);
    var c := CopyScript(e, w, src, InBackup(src));
    CopyScriptAt(e, w, src, InBackup(src), p);
    RemoveAt(e, c.world, src, p);
  }

  /** The move loop at any path of the backup. */
  lemma {:induction false} MoveAllBackup(e: Env, w: World, l: seq<Path>, p: Path)
    requires WellFormed(w.files) && Listing(l, MOTD) && BACKUP <= p
    ensures var r := MoveAll(e, w, l);
      && (r.err.None? ==> At(r.world.files, p) == At(w.files, if InMotd(p) in l then InMotd(p) else p))
    decreases |l|
  {
    if l != [] {
      hide WellFormed, Listing, CopyScript, Remove;
      ListingTail(l, MOTD);
      BackUpOne(e, w, l[0], p);
      var c := CopyScript(e, w, l[0], InBackup(l[0]));
      var r := Remove(e, c.world, l[0]);
      if c.err.None? && r.err.None? {
        MoveAllBackup(e, r.world, l[1..], p);
      }
    }
  }

  /** One turn of the move loop, in the backup. */
  lemma BackUpOne(e: Env, w: World, src: Path, p: Path)
    requires WellFormed(w.files) && MOTD < src && BACKUP <= p
    ensures var c := CopyScript(e, w, src, InBackup(src));
      var r := Remove(e, c.world, src);
      && WellFormed(r.world.files)
      && (InMotd(p) != src ==>
            && At(c.world.files, p) == At(w.files, p) && At(r.world.files, p) == At(w.files, p)
            && At(r.world.files, InMotd(p)) == At(w.files, InMotd(p)))
      && (c.err.None? && InMotd(p) == src ==> At(r.world.files, p) == At(w.files, src))
  {
    hide WellFormed, CopyScript, Remove;
    There(src);
    There(p);
    There(InMotd(p));
    var c := CopyScript(e, w, src, InBackup(src));
    CopyScriptAt(e, w, src, InBackup(src), p);
    CopyScriptAt(e, w, src, InBackup(src), InMotd(p));
    RemoveAt(e, c.world, src, p);
    RemoveAt(e, c.world, src, InMotd(p));
  }

  /** However the move loop ends, it leaves other names in the backup alone. */
  lemma {:induction false} OthersKept(e: Env, w: World, l: seq<Path>, p: Path)
    requires WellFormed(w.files) && Listing(l, MOTD) && BACKUP <= p && InMotd(p) !in l
    ensures At(MoveAll(e, w, l).world.files, p) == At(w.files, p)
    decreases |l|
  {
    if l != [] {
      hide WellFormed, Listing, CopyScript, Remove;
      ListingTail(l, MOTD);
      BackUpOne(e, w, l[0], p);
      var c := CopyScript(e, w, l[0], InBackup(l[0]));
      var r := Remove(e, c.world, l[0]);
      if c.err.None? && r.err.None? {
        OthersKept(e, r.world, l[1..], p);
      }
    }
  }

  /** However the move loop ends, a script is still in its place or safe in the backup. */
  lemma {:induction false} ScriptSafe(e: Env, w: World, l: seq<Path>, p: Path)
    requires WellFormed(w.files) && Listing(l, MOTD) && MOTD <= p && p in w.files
    ensures var files := MoveAll(e, w, l).world.files;
      At(files, p) == At(w.files, p) || At(files, InBackup(p)) == At(w.files, p)
    decreases |l|
  {
    if l != [] {
      hide WellFormed, Listing, CopyScript, Remove;
      There(p);
      ListingTail(l, MOTD);
      MoveOne(e, w, l[0], p);
      BackUpOne(e, w, l[0], InBackup(p));
      var c := CopyScript(e, w, l[0], InBackup(l[0]));
      var r := Remove(e, c.world, l[0]);
      if c.err.None? && r.err.None? {
        if p == l[0] {
          OthersKept(e, r.world, l[1..], InBackup(p));
        } else {
          ScriptSafe(e, r.world, l[1..], p);
        }
      }
    }
  }

  /** The restore loop at any path. */
  lemma {:induction false} RestoreAllAt(e: Env, w: World, l: seq<Path>, p: Path)
    requires WellFormed(w.files) && Listing(l, BACKUP)
    ensures var r := RestoreAll(e, w, l);
      && WellFormed(r.world.files)
      && (!(MOTD <= p) ==> At(r.world.files, p) == At(w.files, p))
      && (r.err.None? && MOTD <= p ==> At(r.world.files, p) == At(w.files, if InBackup(p) in l then InBackup(p) else p))
      && (r.err.None? && p in l ==> p in w.files)
    decreases |l|
  {
    if l != [] {
      hide WellFormed, Listing, CopyScript;
      ListingTail(l, BACKUP);
      RestoreOne(e, w, l[0], p);
      var m := Touch(e, w);
      var c := CopyScript(e, m.world, l[0], InMotd(l[0]));
      if m.err.None? && c.err.None? {
        RestoreAllAt(e, c.world, l[1..], p);
        There(p);
        There(l[0]);
      }
    }
  }

  lemma RestoreOne(e: Env, w: World, src: Path, p: Path)
    requires WellFormed(w.files) && BACKUP < src
    ensures var m := Touch(e, w);
      var c := CopyScript(e, m.world, src, InMotd(src));
      && WellFormed(c.world.files)
      && (!(MOTD <= p) ==> At(c.world.files, p) == At(w.files, p))
      && (MOTD <= p ==> At(c.world.files, InBackup(p)) == At(w.files, InBackup(p)))
      && (MOTD <= p && InBackup(p) != src ==> At(c.world.files, p) == At(w.files, p))
      && (c.err.None? ==> src in w.files)
      && (c.err.None? && MOTD <= p && InBackup(p) == src ==> At(c.world.files, p) == At(w.files, src))
  {
    hide WellFormed, CopyScript;
    There(src);
    There(p);
    var m := Touch(e, w);
    CopyScriptAt(e, m.world, src, InMotd(src), p);
    if MOTD <= p {
      There(InBackup(p));
      CopyScriptAt(e, m.world, src, InMotd(src), InBackup(p));
    }
  }

  // ------------------------------------------------------------------- the motd action

  /** A file in a directory all of whose entries are files is itself an entry. */
  lemma IsEntry(files: FileMap, d: Path, p: Path)
    requires WellFormed(files) && p in files && d < p
    ensures p[..|d| + 1] in Entries(files, d)
    ensures p[..|d| + 1] in files ==> p == p[..|d| + 1]
  {
    var q := p[..|d| + 1];
    assert q <= p && (q != p ==> q < p);
  }

  lemma ProperPrefix(d: Path, p: Path)
    requires d <= p && d != p
    ensures d < p
  {
    assert |d| == |p| ==> d == p;
  }

  lemma HeadIn(l: seq<Path>)
    ensures l == [] || exists p :: p in l
  {
    if l != [] {
      assert l[0] in l;
    }
  }

  lemma NoEntries(files: FileMap, d: Path)
    requires forall q :: q in files ==> !(d <= q)
    ensures Entries(files, d) == {}
  {
  }

  lemma ReadDirSame(e: Env, w: World, d: Path)
    ensures ReadDir(e, w, d).world.files == w.files == Touch(e, w).world.files
    ensures ReadDir(e, w, d).err.None? ==> d !in w.files
  {
  }

  /** Where Do gets through to the end it found only regular files; each is in the backup
      now, over an older file of that name, and no longer in the motd directory. However it
      ends, every script is still in its place or in the backup with its contents. */
  lemma MotdDoAt(e: Env, w: World, p: Path)
    requires Faithful(e) && WellFormed(w.files)
    ensures var r := MotdDo(e, w);
      && WellFormed(r.world.files)
      && (!(MOTD <= p) && !(BACKUP <= p) ==> At(r.world.files, p) == At(w.files, p))
      && (MOTD <= p ==>
            || At(r.world.files, p) == At(w.files, p)
            || (At(r.world.files, p) == None && At(r.world.files, InBackup(p)) == At(w.files, p)))
      && (r.err.None? && MOTD <= p ==> At(r.world.files, p) == None)
      && (r.err.None? && BACKUP <= p ==> At(r.world.files, p) == At(w.files,
          if InMotd(p) in w.files then InMotd(p) else p))
  {
    var m := Touch(e, w);
    var d := ReadDir(e, m.world, MOTD);
    ReadDirSame(e, w, MOTD);
    ReadDirSame(e, m.world, MOTD);
    if m.err.None? && d.err.None? {
      EntriesListing(e, w.files, MOTD);
      MotdLoopAt(e, d.world, e.listing(Entries(w.files, MOTD)), p);
    }
  }

  lemma MotdLoopAt(e: Env, w: World, l: seq<Path>, p: Path)
    requires WellFormed(w.files) && Listing(l, MOTD) && MOTD !in w.files
    requires forall q :: q in l <==> q in Entries(w.files, MOTD)
    ensures var r := MoveAll(e, w, l);
      && WellFormed(r.world.files)
      && (!(MOTD <= p) && !(BACKUP <= p) ==> At(r.world.files, p) == At(w.files, p))
      && (MOTD <= p ==>
            || At(r.world.files, p) == At(w.files, p)
            || (At(r.world.files, p) == None && At(r.world.files, InBackup(p)) == At(w.files, p)))
      && (r.err.None? && MOTD <= p ==> At(r.world.files, p) == None)
      && (r.err.None? && BACKUP <= p ==> At(r.world.files, p) == At(w.files,
          if InMotd(p) in w.files then InMotd(p) else p))
  {
    There(p);
    var r := MoveAll(e, w, l);
    MoveAllAt(e, w, l, MOTD);
    if BACKUP <= p {
      MoveAllBackup(e, w, l, p);
      There(InMotd(p));
      EntryMoved(e, w, l, InMotd(p));
    } else {
      MoveAllAt(e, w, l, p);
      if MOTD <= p {
        EntryMoved(e, w, l, p);
        if p in w.files {
          ScriptSafe(e, w, l, p);
        }
      } else if p in l {
        assert false;
      }
    }
  }

  /** After a complete move the listed paths are exactly the files that were there. */
  lemma EntryMoved(e: Env, w: World, l: seq<Path>, q: Path)
    requires WellFormed(w.files) && Listing(l, MOTD) && MOTD !in w.files && MOTD <= q && !(BACKUP <= q)
    requires forall x :: x in l <==> x in Entries(w.files, MOTD)
    ensures MoveAll(e, w, l).err.None? ==> (q in l <==> q in w.files)
  {
    hide MoveAll;
    MoveAllAt(e, w, l, q);
    if q in w.files && MoveAll(e, w, l).err.None? {
      ProperPrefix(MOTD, q);
      IsEntry(w.files, MOTD, q);
      There(q[..|MOTD| + 1]);
      MoveAllAt(e, w, l, q[..|MOTD| + 1]);
    }
  }

  /** With nothing in the motd directory Do changes nothing. */
  lemma MotdDoIdle(e: Env, w: World)
    requires Faithful(e) && forall q :: q in w.files ==> !(MOTD <= q)
    ensures MotdDo(e, w).world.files == w.files
  {
    NoEntries(w.files, MOTD);
    EntriesListing(e, w.files, MOTD);
    var l := e.listing(Entries(w.files, MOTD));
    HeadIn(l);
  }

  /** A successful Undo copies every backup entry back, whoever put it there. */
  lemma MotdUndoAt(e: Env, w: World, p: Path)
    requires Faithful(e) && WellFormed(w.files)
    ensures var r := MotdUndo(e, w);
      && WellFormed(r.world.files)
      && (!(MOTD <= p) ==> At(r.world.files, p) == At(w.files, p))
      && (r.err.None? && MOTD <= p ==> At(r.world.files, p) == At(w.files,
          if InBackup(p) in w.files then InBackup(p) else p))
  {
    var d := ReadDir(e, w, BACKUP);
    ReadDirSame(e, w, BACKUP);
    if d.err.None? {
      EntriesListing(e, w.files, BACKUP);
      var l := e.listing(Entries(w.files, BACKUP));
      hide RestoreAll;
      RestoreAllAt(e, d.world, l, p);
      if MOTD <= p {
        There(p);
        var q := InBackup(p);
        RestoreAllAt(e, d.world, l, q);
        if q in w.files && RestoreAll(e, d.world, l).err.None? {
          ProperPrefix(BACKUP, q);
          IsEntry(w.files, BACKUP, q);
          RestoreAllAt(e, d.world, l, q[..|BACKUP| + 1]);
        }
      }
    }
  }

  /** Equal wherever the backup is not concerned. */
  ghost predicate Restored(initial: FileMap, now: FileMap) {
    forall p: Path :: !(BACKUP <= p) ==> At(now, p) == At(initial, p)
  }

  /** Every name in the backup is also a motd script. */
  ghost predicate BackupCovered(files: FileMap) {
    forall p: Path :: BACKUP <= p && p in files ==> InMotd(p) in files
  }

  /** Backing up and restoring is the identity outside the backup exactly when the backup
      held no stale script: one left over from an earlier run is installed as a new one. */
  lemma MotdRoundTrip(e: Env, w: World)
    requires Faithful(e) && WellFormed(w.files)
    requires MotdDo(e, w).err.None? && MotdUndo(e, MotdDo(e, w).world).err.None?
    ensures Restored(w.files, MotdUndo(e, MotdDo(e, w).world).world.files) <==> BackupCovered(w.files)
  {
    hide MotdDo, MotdUndo, WellFormed;
    var d := MotdDo(e, w).world;
    var u := MotdUndo(e, d).world;
    MotdDoAt(e, w, []);
    forall p: Path | !(BACKUP <= p) && BackupCovered(w.files)
      ensures At(u.files, p) == At(w.files, p)
    {
      MotdDoAt(e, w, p);
      MotdUndoAt(e, d, p);
      if MOTD <= p {
        There(p);
        MotdDoAt(e, w, InBackup(p));
      }
    }
    if !BackupCovered(w.files) {
      var p: Path :| BACKUP <= p && p in w.files && InMotd(p) !in w.files;
      There(p);
      MotdDoAt(e, w, p);
      MotdUndoAt(e, d, InMotd(p));
      There(InMotd(p));
      assert At(u.files, InMotd(p)) != At(w.files, InMotd(p));
    }
  }

  /** A script only the backup knows, and no failing call: after Do and Undo it is installed. */
  lemma StaleScript(e: Env, script: Contents)
    requires Faithful(e) && forall n :: e.fault(n).Fine?
    ensures var w := World(map[BACKUP + ["10-old"] := script], 0);
      var d := MotdDo(e, w);
      var u := MotdUndo(e, d.world);
      d.err.None? && u.err.None? && At(u.world.files, MOTD + ["10-old"]) == Some(script)
  {
    var saved, installed := BACKUP + ["10-old"], MOTD + ["10-old"];
    var files: FileMap := map[saved := script];
    var w := World(files, 0);
    There(saved);
    NoEntries(files, MOTD);
    EntriesListing(e, files, MOTD);
    HeadIn(e.listing(Entries(files, MOTD)));
    var d := MotdDo(e, w);
    assert d.world.files == files && d.err.None?;
    OneEntry(e, script);
    assert !Blocked(files, installed) by {
      assert !(saved < installed) && !(installed < saved);
    }
    assert Moved(saved, BACKUP, MOTD) == installed && BACKUP < saved && installed != saved;
    var r := ReadDir(e, d.world, BACKUP);
    RestoreSingle(e, r.world, saved);
    assert MotdUndo(e, d.world) == RestoreAll(e, r.world, [saved]);
  }

  lemma RestoreSingle(e: Env, w: World, src: Path)
    requires (forall n :: e.fault(n).Fine?) && BACKUP < src && src in w.files
    requires InMotd(src) != src && !Blocked(w.files, InMotd(src))
    ensures AllBelow([src], BACKUP)
    ensures var r := RestoreAll(e, w, [src]);
      r.err.None? && At(r.world.files, InMotd(src)) == At(w.files, src)
  {
    var m := Touch(e, w);
    var c := CopyScript(e, m.world, src, InMotd(src));
    assert RestoreAll(e, c.world, [src][1..]) == Reply(c.world, None);
  }

  lemma OneEntry(e: Env, script: Contents)
    requires Faithful(e)
    ensures e.listing(Entries(map[BACKUP + ["10-old"] := script], BACKUP)) == [BACKUP + ["10-old"]]
  {
    var saved := BACKUP + ["10-old"];
    var files: FileMap := map[saved := script];
    EntriesListing(e, files, BACKUP);
    assert saved[..|BACKUP| + 1] == saved && BACKUP < saved;
    IsEntry(files, BACKUP, saved);
    assert Entries(files, BACKUP) == {saved};
    var l := e.listing(Entries(files, BACKUP));
    OnlyOne(l, saved);
  }

  lemma FirstTwo(l: seq<Path>)
    requires |l| > 1
    ensures l[0] in l && l[1] in l
  {
  }

  lemma OnlyOne(l: seq<Path>, x: Path)
    requires forall p :: p in l <==> p == x
    requires forall i, j :: 0 <= i < j < |l| ==> l[i] != l[j]
    ensures l == [x]
  {
    assert x in l;
    if |l| > 1 {
      FirstTwo(l);
    }
  }

  // ------------------------------------------------------------------- the copy actions

  lemma {:induction false} CopyAllAt(e: Env, w: World, src: Path, dst: Path, l: seq<Path>, p: Path)
    requires WellFormed(w.files) && AllBelow(l, src)
    ensures var r := CopyAll(e, w, src, dst, l);
      && WellFormed(r.world.files)
      && (!(dst <= p) ==> At(r.world.files, p) == At(w.files, p))
    decreases |l|
  {
    if l != [] {
      hide WellFormed, CopyFile;
      CopyFileAt(e, w, l[0], Moved(l[0], src, dst), p);
      assert AllBelow(l[1..], src);
      CopyAllAt(e, CopyFile(e, w, l[0], Moved(l[0], src, dst)).world, src, dst, l[1..], p);
    }
  }

  /** Do never touches a file outside the destination, however it ends. */
  lemma CopyDoAt(e: Env, w: World, src: Path, dst: Path, p: Path)
    requires Faithful(e) && WellFormed(w.files)
    ensures var r := CopyDo(e, w, src, dst);
      && WellFormed(r.world.files)
      && (!(dst <= p) ==> At(r.world.files, p) == At(w.files, p))
  {
    hide WellFormed, CopyFile, CopyAll, RemoveAll, Faithful;
    var s := Touch(e, w).world;
    RemoveAllAt(e, s, dst, p);
    var x := RemoveAll(e, s, dst).world;
    if !IsDir(w.files, src) {
      CopyFileAt(e, x, src, dst, p);
    } else {
      ListedFiles(e, x.files, src);
      CopyAllAt(e, x, src, dst, e.listing(FilesBelow(x.files, src)), p);
    }
  }

  /** The path below dst that corresponds to one below src, and back. */
  lemma {:induction false} CopyAllMirrors(e: Env, w: World, src: Path, dst: Path, l: seq<Path>, q: Path)
    requires WellFormed(w.files) && AllBelow(l, src) && Apart(src, dst)
    ensures var r := CopyAll(e, w, src, dst, l);
      r.err.None? ==> At(r.world.files, dst + q) == At(w.files, if src + q in l then src + q else dst + q)
    decreases |l|
  {
    if l != [] {
      hide WellFormed, CopyFile, CopyAll;
      CopyAllStep(e, w, src, dst, l);
      var c := CopyFile(e, w, l[0], Moved(l[0], src, dst));
      MirrorPaths(src, dst, l[0], q);
      CopyFileAt(e, w, l[0], Moved(l[0], src, dst), dst + q);
      CopyFileAt(e, w, l[0], Moved(l[0], src, dst), src + q);
      assert l == [l[0]] + l[1..];
      if c.err.None? {
        CopyAllMirrors(e, c.world, src, dst, l[1..], q);
        if src + q in l && src + q !in l[1..] {
          assert l[0] == src + q;
        }
      }
    }
  }

  lemma CopyAllStep(e: Env, w: World, src: Path, dst: Path, l: seq<Path>)
    requires AllBelow(l, src) && l != []
    ensures AllBelow(l[1..], src) && src < l[0]
    ensures var c := CopyFile(e, w, l[0], Moved(l[0], src, dst));
      CopyAll(e, w, src, dst, l) == if c.err.Some? then c else CopyAll(e, c.world, src, dst, l[1..])
  {
  }

  lemma MirrorPaths(src: Path, dst: Path, p: Path, q: Path)
    requires Apart(src, dst) && src <= p
    ensures Moved(p, src, dst) == dst + q <==> p == src + q
    ensures Moved(p, src, dst) != src + q && p != Moved(p, src, dst)
  {
    assert p == src + p[|src|..];
    assert (dst + q)[|dst|..] == q && (src + q)[|src|..] == q;
    assert Moved(p, src, dst)[|dst|..] == p[|src|..];
    NotUnder(src, dst, q);
    NotUnder(src, dst, p[|src|..]);
    assert dst <= Moved(p, src, dst);
  }

  lemma BothPrefixes(a: Path, b: Path, p: Path)
    requires a <= p && b <= p
    ensures a <= b || b <= a
  {
    assert a == p[..|a|] && b == p[..|b|];
  }

  /** After a successful Do, whatever was at the destination before, a path below it holds what
      the source holds at the same place; where the source holds nothing, nothing is left unless
      the removal of the old destination failed, and then at most what was there. */
  lemma CopyOver(e: Env, w: World, src: Path, dst: Path, q: Path)
    requires Faithful(e) && WellFormed(w.files) && Apart(src, dst) && CopyDo(e, w, src, dst).err.None?
    ensures var after := At(CopyDo(e, w, src, dst).world.files, dst + q);
      && (src + q in w.files ==> after == At(w.files, src + q))
      && (src + q !in w.files ==> after == None || after == At(w.files, dst + q))
      && (src + q !in w.files && e.fault(w.clock + 1).Fine? ==> after == None)
  {
    hide CopyFile, CopyAll, RemoveAll, Faithful;
    var s := Touch(e, w).world;
    var x := RemoveAll(e, s, dst).world;
    RemovalFine(e, s, dst);
    RemoveAllAt(e, s, dst, src);
    RemoveAllAt(e, s, dst, src + q);
    RemoveAllAt(e, s, dst, dst + q);
    NotUnder(src, dst, q);
    if IsDir(w.files, src) {
      ListedFiles(e, x.files, src);
      CopyAllMirrors(e, x, src, dst, e.listing(FilesBelow(x.files, src)), q);
      var k: Path :| k in w.files && src < k;
      assert src !in w.files;
      if q == [] {
        assert src + q == src;
      }
    } else {
      CopyFileAt(e, x, src, dst, dst + q);
      assert q != [] ==> src < src + q && dst + q != dst;
      assert q == [] ==> src + q == src && dst + q == dst;
    }
  }

  lemma RemovalFine(e: Env, w: World, d: Path)
    ensures e.fault(w.clock).Fine? ==> RemoveAll(e, w, d).err.None?
  {
  }

  /** So where the old destination was removed, or there was none, the destination mirrors the
      source, file or directory, and holds nothing else. */
  lemma CopyMirrors(e: Env, w: World, src: Path, dst: Path, q: Path)
    requires Faithful(e) && WellFormed(w.files) && Apart(src, dst) && CopyDo(e, w, src, dst).err.None?
    requires e.fault(w.clock + 1).Fine? || forall p :: p in w.files ==> !(dst <= p)
    ensures At(CopyDo(e, w, src, dst).world.files, dst + q) == At(w.files, src + q)
  {
    CopyOver(e, w, src, dst, q);
    hide CopyDo, Faithful;
    assert dst <= dst + q;
  }

  /** A directory copied over one that holds another file, and no failing call: that file goes. */
  lemma CleanReplace(e: Env, source: Contents, stale: Contents)
    requires Faithful(e) && forall n :: e.fault(n).Fine?
    ensures var w := World(map[["s", "a"] := source, ["d", "old"] := stale], 0);
      var r := CopyDo(e, w, ["s"], ["d"]);
      r.err.None? && At(r.world.files, ["d", "old"]) == None && At(r.world.files, ["d", "a"]) == Some(source)
  {
    var w := World(map[["s", "a"] := source, ["d", "old"] := stale], 0);
    assert ["s"][0] != ["d"][0] && ["s", "a"][0] != ["d", "old"][0];
    assert ["s"] + ["old"] == ["s", "old"] && ["d"] + ["old"] == ["d", "old"];
    assert ["s"] + ["a"] == ["s", "a"] && ["d"] + ["a"] == ["d", "a"];
    assert ["s", "old"][1] != ["s", "a"][1];
    assert ["s"] < ["s", "a"] && ["s", "a"] in w.files;
    hide CopyDo, Faithful;
    CopyDoSucceeds(e, w, ["s"], ["d"]);
    CopyOver(e, w, ["s"], ["d"], ["old"]);
    CopyOver(e, w, ["s"], ["d"], ["a"]);
  }

  lemma NotUnder(src: Path, dst: Path, q: Path)
    requires Apart(src, dst)
    ensures !(dst <= src + q) && dst <= dst + q && src != dst
  {
    if dst <= src + q {
      BothPrefixes(src, dst, src + q);
    }
  }

  /** Doing a copy and undoing it gives the old files back exactly when there was nothing
      at the destination: Undo removes, it does not bring back what Do replaced. */
  lemma CopyRoundTrip(e: Env, w: World, src: Path, dst: Path)
    requires Faithful(e) && WellFormed(w.files)
    requires CopyDo(e, w, src, dst).err.None? && CopyUndo(e, CopyDo(e, w, src, dst).world, dst).err.None?
    ensures CopyUndo(e, CopyDo(e, w, src, dst).world, dst).world.files == w.files
            <==> forall p :: p in w.files ==> !(dst <= p)
  {
    hide WellFormed, CopyDo, RemoveAll;
    var d := CopyDo(e, w, src, dst).world;
    var u := CopyUndo(e, d, dst).world;
    CopyDoAt(e, w, src, dst, []);
    forall p: Path
      ensures At(u.files, p) == if dst <= p then None else At(w.files, p)
    {
      CopyDoAt(e, w, src, dst, p);
      RemoveAllAt(e, d, dst, p);
    }
    SameFiles(w.files, u.files, dst);
  }

  /** A file at the destination, and no failing call: after Do and Undo it is gone. */
  lemma ReplacedFile(e: Env, source: Contents, replaced: Contents)
    requires Faithful(e) && forall n :: e.fault(n).Fine?
    ensures var w := World(map[["a"] := source, ["b"] := replaced], 0);
      var d := CopyDo(e, w, ["a"], ["b"]);
      var u := CopyUndo(e, d.world, ["b"]);
      d.err.None? && u.err.None? && At(d.world.files, ["b"]) == Some(source) && At(u.world.files, ["b"]) == None
  {
    var w := World(map[["a"] := source, ["b"] := replaced], 0);
    TwoFiles(w.files, source, replaced);
    var x := RemoveAll(e, Touch(e, w).world, ["b"]).world;
    assert x.files == map[["a"] := source];
    assert CopyDo(e, w, ["a"], ["b"]) == CopyFile(e, x, ["a"], ["b"]);
  }

  lemma TwoFiles(files: FileMap, a: Contents, b: Contents)
    requires files == map[["a"] := a, ["b"] := b]
    ensures !(["b"] <= ["a"]) && !IsDir(files, ["a"]) && WellFormed(files)
    ensures !Blocked(map[["a"] := a], ["b"]) && !Blocked(files - {["b"]}, ["b"])
  {
    assert ["a"][0] != ["b"][0];
  }

  lemma SameFiles(a: FileMap, b: FileMap, dst: Path)
    requires forall p: Path :: At(b, p) == if dst <= p then None else At(a, p)
    ensures b == a <==> forall p :: p in a ==> !(dst <= p)
  {
    if forall p :: p in a ==> !(dst <= p) {
      forall p: Path
        ensures p in a <==> p in b
        ensures p in a ==> a[p] == b[p]
      {
        assert At(b, p) == At(a, p);
      }
    } else {
      var p: Path :| p in a && dst <= p;
      assert At(b, p) == None;
    }
  }

  // ------------------------------------------------------------------------- whole runs

  datatype Job = Motd | Copy(src: Path, dst: Path)

  function DoJob(e: Env, w: World, j: Job): Reply<World>
    requires Faithful(e)
  {
    match j
    case Motd => MotdDo(e, w)
    case Copy(src, dst) => CopyDo(e, w, src, dst)
  }

  function UndoJob(e: Env, w: World, j: Job): Reply<World>
    requires Faithful(e)
  {
    match j
    case Motd => MotdUndo(e, w)
    case Copy(_, dst) => CopyUndo(e, w, dst)
  }

  function JobName(j: Job): string {
    if j.Motd? then "motd backup and disable" else "copy"
  }

  function JobAction(e: Env, j: Job): Action<World>
    requires Faithful(e)
  {
    Action(JobName(j), Some((w: World) => DoJob(e, w, j)), Some((w: World) => UndoJob(e, w, j)))
  }

  function JobActions(e: Env, jobs: seq<Job>): (actions: seq<Action<World>>)
    requires Faithful(e)
    ensures |actions| == |jobs| && forall i :: 0 <= i < |jobs| ==> actions[i] == JobAction(e, jobs[i])
  {
    seq(|jobs|, i requires 0 <= i < |jobs| => JobAction(e, jobs[i]))
  }

  /** Destinations stay clear of the motd directory and of its backup. */
  predicate Sound(jobs: seq<Job>) {
    forall i :: 0 <= i < |jobs| && jobs[i].Copy? ==> Apart(jobs[i].dst, MOTD) && Apart(jobs[i].dst, BACKUP)
  }

  predicate HasMotd(jobs: seq<Job>) { exists i :: 0 <= i < |jobs| && jobs[i].Motd? }

  predicate InDst(jobs: seq<Job>, p: Path) {
    exists i :: 0 <= i < |jobs| && jobs[i].Copy? && jobs[i].dst <= p
  }

  lemma LastJob(jobs: seq<Job>, p: Path)
    requires jobs != []
    ensures var front, j := jobs[..|jobs| - 1], jobs[|jobs| - 1];
      && (HasMotd(jobs) <==> HasMotd(front) || j.Motd?)
      && (InDst(jobs, p) <==> InDst(front, p) || (j.Copy? && j.dst <= p))
      && (Sound(jobs) ==> Sound(front))
  {
    var front, j := jobs[..|jobs| - 1], jobs[|jobs| - 1];
    assert jobs == front + [j];
    assert forall i :: 0 <= i < |front| ==> jobs[i] == front[i];
  }

  lemma ClearOfMotd(jobs: seq<Job>, p: Path)
    requires Sound(jobs)
    ensures InDst(jobs, p) ==> !(MOTD <= p) && !(BACKUP <= p)
  {
    if InDst(jobs, p) {
      var i :| 0 <= i < |jobs| && jobs[i].Copy? && jobs[i].dst <= p;
      if MOTD <= p {
        BothPrefixes(MOTD, jobs[i].dst, p);
      }
      if BACKUP <= p {
        BothPrefixes(BACKUP, jobs[i].dst, p);
      }
    }
  }

  /** Where completed jobs have brought path p, whose initial contents were those of files. */
  ghost predicate Midway(files: FileMap, now: FileMap, jobs: seq<Job>, p: Path) {
    if InDst(jobs, p) then true
    else if MOTD <= p then At(now, p) == if HasMotd(jobs) then None else At(files, p)
    else if BACKUP <= p then At(now, p) == At(files, if HasMotd(jobs) && InMotd(p) in files then InMotd(p) else p)
    else At(now, p) == At(files, p)
  }

  /** The world after doing all jobs. */
  function AfterJobs(e: Env, jobs: seq<Job>, w: World): World
    requires Faithful(e)
  {
    if jobs == [] then w
    else DoJob(e, AfterJobs(e, jobs[..|jobs| - 1], w), jobs[|jobs| - 1]).world
  }

  ghost predicate AllDone(e: Env, jobs: seq<Job>, w: World)
    requires Faithful(e)
  {
    jobs == [] ||
    (AllDone(e, jobs[..|jobs| - 1], w) && DoJob(e, AfterJobs(e, jobs[..|jobs| - 1], w), jobs[|jobs| - 1]).err.None?)
  }

  lemma {:induction false} Forward(e: Env, jobs: seq<Job>, w: World, p: Path)
    requires Faithful(e) && Sound(jobs) && WellFormed(w.files) && AllDone(e, jobs, w)
    ensures WellFormed(AfterJobs(e, jobs, w).files) && Midway(w.files, AfterJobs(e, jobs, w).files, jobs, p)
    decreases |jobs|
  {
    if jobs != [] {
      hide WellFormed, Sound, HasMotd, InDst, MotdDo, CopyDo, Faithful, Midway;
      var front, j := jobs[..|jobs| - 1], jobs[|jobs| - 1];
      var mid := AfterJobs(e, front, w);
      LastJob(jobs, p);
      Forward(e, front, w, p);
      match j {
        case Copy(src, dst) =>
          CopyDoAt(e, mid, src, dst, p);
          CopyStep(w.files, mid.files, CopyDo(e, mid, src, dst).world.files, jobs, p);
        case Motd =>
          MotdDoAt(e, mid, p);
          if BACKUP <= p {
            There(p);
            Forward(e, front, w, InMotd(p));
          }
          MotdStep(w.files, mid.files, MotdDo(e, mid).world.files, jobs, p);
      }
    } else {
      assert !HasMotd(jobs);
    }
  }

  lemma CopyStep(files: FileMap, mid: FileMap, now: FileMap, jobs: seq<Job>, p: Path)
    requires jobs != [] && jobs[|jobs| - 1].Copy? && Midway(files, mid, jobs[..|jobs| - 1], p)
    requires !(jobs[|jobs| - 1].dst <= p) ==> At(now, p) == At(mid, p)
    ensures Midway(files, now, jobs, p)
  {
    LastJob(jobs, p);
  }

  lemma MotdStep(files: FileMap, mid: FileMap, now: FileMap, jobs: seq<Job>, p: Path)
    requires jobs != [] && jobs[|jobs| - 1].Motd? && Sound(jobs) && Midway(files, mid, jobs[..|jobs| - 1], p)
    requires BACKUP <= p ==> Midway(files, mid, jobs[..|jobs| - 1], InMotd(p))
    requires !(MOTD <= p) && !(BACKUP <= p) ==> At(now, p) == At(mid, p)
    requires MOTD <= p ==> At(now, p) == None
    requires BACKUP <= p ==> At(now, p) == At(mid, if InMotd(p) in mid then InMotd(p) else p)
    ensures Midway(files, now, jobs, p)
  {
    LastJob(jobs, p);
    There(p);
    if BACKUP <= p {
      ClearOfMotd(jobs[..|jobs| - 1], InMotd(p));
      ClearOfMotd(jobs[..|jobs| - 1], p);
    }
  }

  /** What rolling back jobs makes of path p. */
  ghost function RolledBack(files: FileMap, jobs: seq<Job>, p: Path): Option<Contents> {
    if InDst(jobs, p) then None
    else if HasMotd(jobs) && MOTD <= p && InBackup(p) in files then At(files, InBackup(p))
    else At(files, p)
  }

  lemma UndoJobAt(e: Env, w: World, j: Job, p: Path)
    requires Faithful(e) && WellFormed(w.files) && UndoJob(e, w, j).err.None?
    ensures var r := UndoJob(e, w, j);
      && WellFormed(r.world.files)
      && (j.Copy? ==> At(r.world.files, p) == if j.dst <= p then None else At(w.files, p))
      && (j.Motd? ==> At(r.world.files, p) == At(w.files, if MOTD <= p &&
          InBackup(p) in w.files then InBackup(p) else p))
  {
    hide WellFormed, MotdUndo, RemoveAll;
    match j
    case Motd => MotdUndoAt(e, w, p);
    case Copy(_, dst) => RemoveAllAt(e, w, dst, p);
  }

  /** Rolling back without errors, path by path. */
  lemma {:induction false} BackwardAt(e: Env, jobs: seq<Job>, w: World, p: Path)
    requires Faithful(e) && Sound(jobs) && WellFormed(w.files) && Backward(JobActions(e, jobs), w).errs == []
    ensures At(Backward(JobActions(e, jobs), w).world.files, p) == RolledBack(w.files, jobs, p)
    decreases |jobs|
  {
    if jobs != [] {
      BackwardStep(e, jobs, w);
      hide WellFormed, Sound, UndoJob, Faithful, Backward, RolledBack;
      UndoLast(e, jobs, w, p);
      BackwardAt(e, jobs[..|jobs| - 1], UndoJob(e, w, jobs[|jobs| - 1]).world, p);
    } else {
      NoJobs(p);
    }
  }

  lemma NoJobs(p: Path)
    ensures !HasMotd([]) && !InDst([], p)
  {
  }

  /** Undoing the last job first. */
  lemma UndoLast(e: Env, jobs: seq<Job>, w: World, p: Path)
    requires Faithful(e) && Sound(jobs) && WellFormed(w.files) && jobs != []
    requires UndoJob(e, w, jobs[|jobs| - 1]).err.None?
    ensures var u := UndoJob(e, w, jobs[|jobs| - 1]).world;
      && WellFormed(u.files) && Sound(jobs[..|jobs| - 1])
      && RolledBack(u.files, jobs[..|jobs| - 1], p) == RolledBack(w.files, jobs, p)
  {
    hide WellFormed, Sound, HasMotd, InDst, UndoJob, Faithful, RolledBack;
    var j := jobs[|jobs| - 1];
    var u := UndoJob(e, w, j);
    LastJob(jobs, p);
    UndoJobAt(e, w, j, p);
    if MOTD <= p {
      There(p);
      There(InBackup(p));
      UndoJobAt(e, w, j, InBackup(p));
    }
    UndoneStep(w.files, u.world.files, jobs, p);
  }

  lemma BackwardStep(e: Env, jobs: seq<Job>, w: World)
    requires Faithful(e) && jobs != []
    ensures var front, u := jobs[..|jobs| - 1], UndoJob(e, w, jobs[|jobs| - 1]);
      && Backward(JobActions(e, jobs), w).world == Backward(JobActions(e, front), u.world).world
      && (Backward(JobActions(e, jobs), w).errs == [] <==>
          u.err.None? && Backward(JobActions(e, front), u.world).errs == [])
  {
    var all := JobActions(e, jobs);
    assert all[..|all| - 1] == JobActions(e, jobs[..|jobs| - 1]);
  }

  lemma UndoneStep(files: FileMap, undone: FileMap, jobs: seq<Job>, p: Path)
    requires jobs != [] && Sound(jobs)
    requires var j := jobs[|jobs| - 1];
      && (j.Copy? ==> At(undone, p) == if j.dst <= p then None else At(files, p))
      && (j.Copy? && MOTD <= p ==>
            At(undone, InBackup(p)) == if j.dst <= InBackup(p) then None else At(files, InBackup(p)))
      && (j.Motd? ==> At(undone, p) == At(files, if MOTD <= p && InBackup(p) in files then InBackup(p) else p))
      && (j.Motd? && MOTD <= p ==> At(undone, InBackup(p)) == At(files, InBackup(p)))
    ensures RolledBack(undone, jobs[..|jobs| - 1], p) == RolledBack(files, jobs, p)
  {
    hide Sound, HasMotd, InDst;
    LastJob(jobs, p);
    if MOTD <= p {
      There(p);
      ClearOfMotd(jobs, p);
      ClearOfMotd(jobs, InBackup(p));
      LastJob(jobs, InBackup(p));
    }
  }

  // -------------------------------------------------------------- the engine runs the jobs

  lemma {:induction false} JobsDoable(e: Env, jobs: seq<Job>)
    requires Faithful(e)
    ensures Doable(JobActions(e, jobs)) == JobActions(e, jobs)
    decreases |jobs|
  {
    hide Faithful, JobAction, Doable, JobActions;
    if jobs == [] {
      NoneDoable(JobActions(e, jobs));
    } else {
      var front, j := jobs[..|jobs| - 1], jobs[|jobs| - 1];
      JobsDoable(e, front);
      JobHasDo(e, j);
      JobsLast(e, jobs);
      LastDoable(JobActions(e, front), JobAction(e, j));
    }
  }

  lemma NoneDoable(actions: seq<Action<World>>)
    requires |actions| == 0
    ensures Doable(actions) == actions
  {
  }

  lemma JobsLast(e: Env, jobs: seq<Job>)
    requires Faithful(e) && jobs != []
    ensures JobActions(e, jobs) == JobActions(e, jobs[..|jobs| - 1]) + [JobAction(e, jobs[|jobs| - 1])]
  {
    hide Faithful, JobAction;
  }

  lemma JobHasDo(e: Env, j: Job)
    requires Faithful(e)
    ensures JobAction(e, j).todo.Some?
  {
    hide Faithful;
  }

  lemma LastDoable(front: seq<Action<World>>, a: Action<World>)
    requires a.todo.Some?
    ensures Doable(front + [a]) == Doable(front) + [a]
  {
    assert (front + [a])[..|front + [a]| - 1] == front;
  }

  lemma {:induction false} JobsWorld(e: Env, jobs: seq<Job>, w: World)
    requires Faithful(e)
    ensures WorldAfter(JobActions(e, jobs), w) == AfterJobs(e, jobs, w)
    decreases |jobs|
  {
    if jobs != [] {
      var all := JobActions(e, jobs);
      assert all[..|all| - 1] == JobActions(e, jobs[..|jobs| - 1]);
      JobsWorld(e, jobs[..|jobs| - 1], w);
    }
  }

  lemma JobsPrefix(e: Env, jobs: seq<Job>, k: nat)
    requires Faithful(e) && k <= |jobs|
    ensures JobActions(e, jobs)[..k] == JobActions(e, jobs[..k])
  {
  }

  lemma JobFails(e: Env, jobs: seq<Job>, w: World, k: nat)
    requires Faithful(e) && k < |jobs|
    ensures FailsAt(JobActions(e, jobs), w, k) <==> DoJob(e, AfterJobs(e, jobs[..k], w), jobs[k]).err.Some?
  {
    JobsPrefix(e, jobs, k);
    JobsWorld(e, jobs[..k], w);
  }

  lemma {:induction false} DoneBefore(e: Env, jobs: seq<Job>, w: World, k: nat)
    requires Faithful(e) && k <= |jobs|
    requires forall j: nat :: j < k ==> !FailsAt(JobActions(e, jobs), w, j)
    ensures AllDone(e, jobs[..k], w)
  {
    if k > 0 {
      DoneBefore(e, jobs, w, k - 1);
      JobFails(e, jobs, w, k - 1);
      assert jobs[..k][..k - 1] == jobs[..k - 1];
    }
  }

  // ------------------------------------------------------------------- the main theorem

  ghost predicate NothingAt(files: FileMap, jobs: seq<Job>) {
    forall p :: p in files ==> !InDst(jobs, p)
  }

  /** What the failing Do has left of the initial files where no Undo will come to help. */
  ghost predicate Clean(files: FileMap, failed: FileMap, done: seq<Job>, j: Job) {
    match j
    case Copy(_, dst) => forall p: Path :: dst <= p && !InDst(done, p) ==> At(failed, p) == At(files, p)
    case Motd => HasMotd(done) || forall p: Path :: MOTD <= p && p in files ==> p in failed
  }

  /** The files after the jobs done, the failed Do and the rollback. */
  ghost function Remains(e: Env, done: seq<Job>, j: Job, w: World): Undone<World>
    requires Faithful(e)
  {
    Backward(JobActions(e, done), DoJob(e, AfterJobs(e, done, w), j).world)
  }

  /** A path after a failed Copy and the rollback. */
  lemma AfterFailedCopy(e: Env, done: seq<Job>, j: Job, w: World, p: Path)
    requires Faithful(e) && Sound(done + [j]) && WellFormed(w.files) && AllDone(e, done, w)
    requires j.Copy? && Remains(e, done, j, w).errs == [] && !(BACKUP <= p)
    ensures var failed := DoJob(e, AfterJobs(e, done, w), j).world.files;
      At(Remains(e, done, j, w).world.files, p) ==
        if InDst(done, p) then None
        else if j.dst <= p then At(failed, p)
        else if MOTD <= p && HasMotd(done) && p !in w.files then At(w.files, InBackup(p))
        else At(w.files, p)
  {
    var jobs := done + [j];
    LastJob(jobs, p);
    assert jobs[..|jobs| - 1] == done;
    var mid := AfterJobs(e, done, w);
    var failed := CopyDo(e, mid, j.src, j.dst).world;
    ClearOfMotd(jobs, p);
    hide WellFormed, Sound, HasMotd, InDst, CopyDo, Faithful, Backward;
    Forward(e, done, w, p);
    CopyDoAt(e, mid, j.src, j.dst, p);
    BackwardAt(e, done, failed, p);
    if MOTD <= p {
      There(p);
      Forward(e, done, w, InBackup(p));
      CopyDoAt(e, mid, j.src, j.dst, InBackup(p));
      ClearOfMotd(done, InBackup(p));
      LastJob(jobs, InBackup(p));
      ClearOfMotd(jobs, InBackup(p));
    }
  }

  /** A failed second motd action finds nothing to move. */
  lemma SecondMotdIdle(e: Env, done: seq<Job>, w: World)
    requires Faithful(e) && Sound(done) && WellFormed(w.files) && AllDone(e, done, w) && HasMotd(done)
    ensures DoJob(e, AfterJobs(e, done, w), Motd).world.files == AfterJobs(e, done, w).files
  {
    hide WellFormed, Sound, HasMotd, InDst, MotdDo, Faithful, AllDone, AfterJobs;
    var mid := AfterJobs(e, done, w);
    forall q | q in mid.files
      ensures !(MOTD <= q)
    {
      Forward(e, done, w, q);
      ClearOfMotd(done, q);
    }
    MotdDoIdle(e, mid);
  }

  /** A path after a failed motd action and the rollback. */
  lemma AfterFailedMotd(e: Env, done: seq<Job>, w: World, p: Path)
    requires Faithful(e) && Sound(done) && WellFormed(w.files) && AllDone(e, done, w)
    requires Remains(e, done, Motd, w).errs == [] && !(BACKUP <= p)
    ensures var failed := DoJob(e, AfterJobs(e, done, w), Motd).world.files;
      At(Remains(e, done, Motd, w).world.files, p) ==
        if InDst(done, p) then None
        else if !(MOTD <= p) then At(w.files, p)
        else if !HasMotd(done) then (if p in failed then At(w.files, p) else None)
        else if p !in w.files then At(w.files, InBackup(p))
        else At(w.files, p)
  {
    hide WellFormed, Sound, HasMotd, InDst, MotdDo, Faithful, Backward, AllDone, AfterJobs, RolledBack, Midway;
    var mid := AfterJobs(e, done, w);
    var failed := MotdDo(e, mid).world;
    assert failed == DoJob(e, mid, Motd).world;
    if HasMotd(done) {
      SecondMotdIdle(e, done, w);
    }
    ClearOfMotd(done, p);
    Forward(e, done, w, p);
    MotdDoAt(e, mid, p);
    if MOTD <= p {
      There(p);
      There(InBackup(p));
      Forward(e, done, w, InBackup(p));
      ClearOfMotd(done, InBackup(p));
    }
    FailedMotdPath(w.files, mid.files, failed.files, done, p);
    BackwardAt(e, done, failed, p);
  }

  lemma FailedMotdPath(files: FileMap, mid: FileMap, failed: FileMap, done: seq<Job>, p: Path)
    requires !(BACKUP <= p) && Midway(files, mid, done, p)
    requires MOTD <= p ==> BACKUP <= InBackup(p) && InMotd(InBackup(p)) == p
    requires MOTD <= p ==> Midway(files, mid, done, InBackup(p)) && !InDst(done, p) && !InDst(done, InBackup(p))
    requires MOTD <= p ==> At(failed, p) == At(mid, p) || At(failed, p) == None
    requires !(MOTD <= p) ==> At(failed, p) == At(mid, p)
    requires HasMotd(done) ==> failed == mid
    requires MOTD <= p ==> !(MOTD <= InBackup(p))
    ensures RolledBack(failed, done, p) ==
        if InDst(done, p) then None
        else if !(MOTD <= p) then At(files, p)
        else if !HasMotd(done) then (if p in failed then At(files, p) else None)
        else if p !in files then At(files, InBackup(p))
        else At(files, p)
  {
    hide HasMotd, InDst;
  }

  /** Whether one path outside the backup is back to its initial contents. */
  ghost predicate BackAt(files: FileMap, failed: FileMap, done: seq<Job>, j: Job, p: Path) {
    && (InDst(done, p) ==> p !in files)
    && (j.Copy? && j.dst <= p && !InDst(done, p) ==> At(failed, p) == At(files, p))
    && (j.Motd? && !HasMotd(done) && MOTD <= p && p in files ==> p in failed)
    && (HasMotd(done) && MOTD <= p && p !in files ==> InBackup(p) !in files)
  }

  lemma PathBack(e: Env, done: seq<Job>, j: Job, w: World, p: Path)
    requires Faithful(e) && Sound(done + [j]) && Sound(done) && WellFormed(w.files) && AllDone(e, done, w)
    requires Remains(e, done, j, w).errs == [] && !(BACKUP <= p)
    ensures At(Remains(e, done, j, w).world.files, p) == At(w.files, p) <==>
            BackAt(w.files, DoJob(e, AfterJobs(e, done, w), j).world.files, done, j, p)
  {
    hide WellFormed, Sound, HasMotd, InDst, DoJob, Faithful, Remains, AllDone, AfterJobs;
    ClearOfMotd(done, p);
    ClearOfMotd(done + [j], p);
    assert (done + [j])[..|done + [j]| - 1] == done;
    LastJob(done + [j], p);
    match j
    case Copy(_, _) => AfterFailedCopy(e, done, j, w, p);
    case Motd => AfterFailedMotd(e, done, w, p);
  }

  /** The conditions path by path are the three conditions of the theorem. */
  lemma PathsBack(files: FileMap, failed: FileMap, done: seq<Job>, j: Job)
    requires Sound(done) && Sound(done + [j])
    ensures (forall p: Path :: !(BACKUP <= p) ==> BackAt(files, failed, done, j, p)) <==>
            (HasMotd(done) ==> BackupCovered(files)) && NothingAt(files, done) && Clean(files, failed, done, j)
  {
    hide Sound, HasMotd, InDst;
    if forall p: Path :: !(BACKUP <= p) ==> BackAt(files, failed, done, j, p) {
      AllBack(files, failed, done, j);
    }
    if (HasMotd(done) ==> BackupCovered(files)) && NothingAt(files, done) && Clean(files, failed, done, j) {
      forall p: Path | !(BACKUP <= p)
        ensures BackAt(files, failed, done, j, p)
      {
        if MOTD <= p {
          There(p);
        }
      }
    }
  }

  lemma AllBack(files: FileMap, failed: FileMap, done: seq<Job>, j: Job)
    requires Sound(done) && Sound(done + [j])
    requires forall p: Path :: !(BACKUP <= p) ==> BackAt(files, failed, done, j, p)
    ensures (HasMotd(done) ==> BackupCovered(files)) && NothingAt(files, done) && Clean(files, failed, done, j)
  {
    hide Sound, HasMotd, InDst, BackAt;
    forall p: Path | BACKUP <= p && p in files && HasMotd(done)
      ensures InMotd(p) in files
    {
      There(p);
      There(InMotd(p));
      assert BackAt(files, failed, done, j, InMotd(p));
      BackUse(files, failed, done, j, InMotd(p));
    }
    forall p | p in files
      ensures !InDst(done, p)
    {
      ClearOfMotd(done, p);
      assert !(BACKUP <= p) ==> BackAt(files, failed, done, j, p);
      BackUse(files, failed, done, j, p);
    }
    match j
    case Copy(_, dst) =>
      forall p: Path | dst <= p && !InDst(done, p)
        ensures At(failed, p) == At(files, p)
      {
        assert (done + [j])[..|done + [j]| - 1] == done;
        LastJob(done + [j], p);
        ClearOfMotd(done + [j], p);
        BackUse(files, failed, done, j, p);
      }
    case Motd =>
      forall p: Path | MOTD <= p && p in files && !HasMotd(done)
        ensures p in failed
      {
        There(p);
        BackUse(files, failed, done, j, p);
      }
  }

  lemma BackUse(files: FileMap, failed: FileMap, done: seq<Job>, j: Job, p: Path)
    ensures BackAt(files, failed, done, j, p) ==>
      && (InDst(done, p) ==> p !in files)
      && (j.Copy? && j.dst <= p && !InDst(done, p) ==> At(failed, p) == At(files, p))
      && (j.Motd? && !HasMotd(done) && MOTD <= p && p in files ==> p in failed)
      && (HasMotd(done) && MOTD <= p && p !in files ==> InBackup(p) !in files)
  {
  }

  /** If job k is the first to fail and every Undo succeeds, all files outside the backup
      are back to their initial contents exactly when the backup held no stale script before
      the motd action was done, the completed copies replaced nothing, and the failing Do
      left nothing behind at places no Undo clears. */
  lemma RestoredExactly(e: Env, jobs: seq<Job>, w: World, k: nat)
    requires Faithful(e) && Sound(jobs) && WellFormed(w.files)
    requires FirstFailure(JobActions(e, jobs), w, k) && Remains(e, jobs[..k], jobs[k], w).errs == []
    ensures Restored(w.files, Remains(e, jobs[..k], jobs[k], w).world.files) <==>
      && (HasMotd(jobs[..k]) ==> BackupCovered(w.files))
      && NothingAt(w.files, jobs[..k])
      && Clean(w.files, DoJob(e, AfterJobs(e, jobs[..k], w), jobs[k]).world.files, jobs[..k], jobs[k])
  {
    FailureFacts(e, jobs, w, k);
    hide *;
    RestoredAfter(e, jobs[..k], jobs[k], w);
  }

  lemma FailureFacts(e: Env, jobs: seq<Job>, w: World, k: nat)
    requires Faithful(e) && Sound(jobs) && FirstFailure(JobActions(e, jobs), w, k)
    ensures k < |jobs| && AllDone(e, jobs[..k], w) && Sound(jobs[..k]) && Sound(jobs[..k] + [jobs[k]])
  {
    DoneBefore(e, jobs, w, k);
  }

  lemma RestoredAfter(e: Env, done: seq<Job>, j: Job, w: World)
    requires Faithful(e) && Sound(done + [j]) && Sound(done) && WellFormed(w.files) && AllDone(e, done, w)
    requires Remains(e, done, j, w).errs == []
    ensures Restored(w.files, Remains(e, done, j, w).world.files) <==>
      && (HasMotd(done) ==> BackupCovered(w.files))
      && NothingAt(w.files, done)
      && Clean(w.files, DoJob(e, AfterJobs(e, done, w), j).world.files, done, j)
  {
    hide *;
    var failed := DoJob(e, AfterJobs(e, done, w), j).world.files;
    var last := Remains(e, done, j, w).world.files;
    forall p: Path | !(BACKUP <= p)
      ensures At(last, p) == At(w.files, p) <==> BackAt(w.files, failed, done, j, p)
    {
      PathBack(e, done, j, w, p);
    }
    PathsBack(w.files, failed, done, j);
    RestoredBy(w.files, failed, last, done, j);
  }

  lemma RestoredBy(files: FileMap, failed: FileMap, last: FileMap, done: seq<Job>, j: Job)
    requires forall p: Path :: !(BACKUP <= p) ==> (At(last, p) == At(files, p) <==> BackAt(files, failed, done, j, p))
    ensures Restored(files, last) <==> forall p: Path :: !(BACKUP <= p) ==> BackAt(files, failed, done, j, p)
  {
    hide BackAt, At;
  }

  /** In particular: nothing at any destination, no stale script in the backup, and a failing
      Do that changed nothing. */
  lemma RestoredInFull(e: Env, jobs: seq<Job>, w: World, k: nat)
    requires Faithful(e) && Sound(jobs) && WellFormed(w.files)
    requires FirstFailure(JobActions(e, jobs), w, k) && Remains(e, jobs[..k], jobs[k], w).errs == []
    requires BackupCovered(w.files) && NothingAt(w.files, jobs)
    requires DoJob(e, AfterJobs(e, jobs[..k], w), jobs[k]).world.files == AfterJobs(e, jobs[..k], w).files
    ensures Restored(w.files, Remains(e, jobs[..k], jobs[k], w).world.files)
  {
    FailureFacts(e, jobs, w, k);
    var done, j := jobs[..k], jobs[k];
    assert NothingAt(w.files, done);
    CleanUnchanged(e, done, j, w);
    hide *;
    RestoredExactly(e, jobs, w, k);
  }

  lemma CleanUnchanged(e: Env, done: seq<Job>, j: Job, w: World)
    requires Faithful(e) && Sound(done) && Sound(done + [j]) && WellFormed(w.files) && AllDone(e, done, w)
    ensures Clean(w.files, AfterJobs(e, done, w).files, done, j)
  {
    hide WellFormed, Sound, InDst, Faithful, AllDone, AfterJobs;
    var mid := AfterJobs(e, done, w);
    forall p: Path
      ensures j.Copy? && j.dst <= p && !InDst(done, p) ==> At(mid.files, p) == At(w.files, p)
      ensures j.Motd? && MOTD <= p && p in w.files && !HasMotd(done) ==> p in mid.files
    {
      Forward(e, done, w, p);
      assert (done + [j])[..|done + [j]| - 1] == done;
      LastJob(done + [j], p);
      ClearOfMotd(done + [j], p);
    }
  }

  /** A copy that breaks off after creating its file, as the only job: nothing is undone, and
      the file stays, cut short. */
  lemma LeftBehind(e: Env, source: Contents, written: nat)
    requires Faithful(e) && written <= |source|
    requires forall n :: e.fault(n) == if n == 2 then Partway(written, {}) else Fine
    ensures var w, j := World(map[["a"] := source], 0), Copy(["a"], ["b"]);
      && FirstFailure(JobActions(e, [j]), w, 0) && Remains(e, [], j, w).errs == []
      && At(w.files, ["b"]) == None
      && At(Remains(e, [], j, w).world.files, ["b"]) == Some(source[..written])
  {
    var w, j := World(map[["a"] := source], 0), Copy(["a"], ["b"]);
    TwoFiles(map[["a"] := source, ["b"] := source], source, source);
    var x := RemoveAll(e, Touch(e, w).world, ["b"]).world;
    assert x.files == w.files && x.clock == 2;
    assert !IsDir(w.files, ["a"]);
    var d := DoJob(e, w, j);
    assert d == CopyFile(e, x, ["a"], ["b"]);
    assert JobActions(e, [j])[..0] == [];
    assert JobActions(e, []) == [];
    assert FailsAt(JobActions(e, [j]), w, 0);
  }

  /** A file copied to a place where nothing is: a Do that fails leaves the files as they were if
      and only if the first call fails, or the destination is blocked, or the copy fails before
      it creates its file. What it leaves otherwise is a part of the source. */
  lemma FailedFileCopy(e: Env, w: World, src: Path, dst: Path)
    requires Faithful(e) && WellFormed(w.files) && src in w.files && forall p :: p in w.files ==> !(dst <= p)
    requires CopyDo(e, w, src, dst).err.Some?
    ensures CopyDo(e, w, src, dst).world.files == w.files <==>
            !e.fault(w.clock).Fine? || Blocked(w.files, dst) || e.fault(w.clock + 2).Before?
    ensures At(CopyDo(e, w, src, dst).world.files, dst).Some? ==>
            At(CopyDo(e, w, src, dst).world.files, dst).value <= w.files[src]
  {
    CopyOfFile(e, w, src, dst);
    hide Blocked, CopyDo, CopyBytes, WellFormed, Faithful;
    if e.fault(w.clock).Fine? {
      FailedBytes(e, World(w.files, w.clock + 2), src, dst);
    }
  }

  /** Copying a file to a place where nothing is comes down to copying its bytes. */
  lemma CopyOfFile(e: Env, w: World, src: Path, dst: Path)
    requires Faithful(e) && WellFormed(w.files) && src in w.files && forall p :: p in w.files ==> !(dst <= p)
    ensures dst !in w.files
    ensures CopyDo(e, w, src, dst) ==
            if e.fault(w.clock).Fine? then CopyBytes(e, World(w.files, w.clock + 2), src, dst) else Touch(e, w)
  {
    hide Blocked, CopyBytes, Faithful;
    var x := RemoveAll(e, Touch(e, w).world, dst).world;
    assert x == World(w.files, w.clock + 2) by {
      NothingRemoved(e, Touch(e, w).world, dst);
    }
    assert !IsDir(w.files, src);
  }

  lemma NothingRemoved(e: Env, w: World, d: Path)
    requires forall p :: p in w.files ==> !(d <= p)
    ensures RemoveAll(e, w, d).world == World(w.files, w.clock + 1)
  {
    var gone := set p | p in w.files && d <= p;
    assert gone == {};
    assert forall kept: set<Path> :: w.files - (gone - kept) == w.files;
  }

  lemma FailedBytes(e: Env, w: World, src: Path, dst: Path)
    requires src in w.files && dst !in w.files && CopyBytes(e, w, src, dst).err.Some?
    ensures CopyBytes(e, w, src, dst).world.files == w.files <==> Blocked(w.files, dst) || e.fault(w.clock).Before?
    ensures CopyBytes(e, w, src, dst).world.files != w.files ==> dst in CopyBytes(e, w, src, dst).world.files
    ensures At(CopyBytes(e, w, src, dst).world.files, dst).Some? ==>
            At(CopyBytes(e, w, src, dst).world.files, dst).value <= w.files[src]
  {
    hide Blocked;
    var r := CopyBytes(e, w, src, dst).world.files;
    assert w.files[dst := []][src] == w.files[src];
    if !Blocked(w.files, dst) && !e.fault(w.clock).Before? {
      assert dst in r;
    } else {
      assert r == w.files;
    }
  }

  /** So with nothing at its destination, such a failing job is clean exactly then. */
  lemma CleanFileCopy(e: Env, done: seq<Job>, j: Job, w: World)
    requires Faithful(e) && Sound(done) && Sound(done + [j]) && WellFormed(w.files) && AllDone(e, done, w) && j.Copy?
    requires var mid := AfterJobs(e, done, w);
      && j.src in mid.files && (forall p :: p in mid.files ==> !(j.dst <= p)) && !InDst(done, j.dst)
      && WellFormed(mid.files) && DoJob(e, mid, j).err.Some?
    ensures var mid := AfterJobs(e, done, w);
      Clean(w.files, DoJob(e, mid, j).world.files, done, j) <==>
      !e.fault(mid.clock).Fine? || Blocked(mid.files, j.dst) || e.fault(mid.clock + 2).Before?
  {
    var mid := AfterJobs(e, done, w);
    var failed := CopyDo(e, mid, j.src, j.dst).world;
    FailedFileCopy(e, mid, j.src, j.dst);
    CleanUnchanged(e, done, j, w);
    hide WellFormed, Sound, Faithful, AllDone, AfterJobs, CopyDo, Blocked;
    if failed.files != mid.files {
      FilesDiffer(e, mid, j.src, j.dst);
      assert At(w.files, j.dst) == None by {
        DstFree(e, done, j, w);
      }
    }
  }

  lemma FilesDiffer(e: Env, w: World, src: Path, dst: Path)
    requires Faithful(e) && WellFormed(w.files) && src in w.files && (forall p :: p in w.files ==> !(dst <= p))
    requires CopyDo(e, w, src, dst).err.Some? && CopyDo(e, w, src, dst).world.files != w.files
    ensures dst in CopyDo(e, w, src, dst).world.files
  {
    CopyOfFile(e, w, src, dst);
    hide Blocked, CopyDo, CopyBytes, WellFormed, Faithful;
    FailedBytes(e, World(w.files, w.clock + 2), src, dst);
  }

  lemma DstFree(e: Env, done: seq<Job>, j: Job, w: World)
    requires Faithful(e) && Sound(done) && Sound(done + [j]) && WellFormed(w.files) && AllDone(e, done, w) && j.Copy?
    requires j.dst !in AfterJobs(e, done, w).files && !InDst(done, j.dst)
    ensures At(w.files, j.dst) == None
  {
    hide WellFormed, Sound, InDst, Faithful, AllDone, AfterJobs;
    Forward(e, done, w, j.dst);
    assert (done + [j])[..|done + [j]| - 1] == done;
    LastJob(done + [j], j.dst);
    ClearOfMotd(done + [j], j.dst);
  }

  // --------------------------------------------------------------- where Do succeeds

  ghost predicate NoFaults(e: Env) { forall n: nat :: e.fault(n).Fine? }

  /** Distinct files of a well-formed map do not get in each other's way when they are moved. */
  lemma MovedApart(p: Path, q: Path, from: Path, to: Path)
    requires from <= p && from <= q
    ensures Moved(p, from, to) < Moved(q, from, to) <==> p < q
    ensures Moved(p, from, to) == Moved(q, from, to) <==> p == q
  {
    assert p == from + p[|from|..] && q == from + q[|from|..];
    var x, y := p[|from|..], q[|from|..];
    assert (to + x)[|to|..] == x && (to + y)[|to|..] == y;
    if p < q {
      assert x == y[..|x|];
    }
    if to + x < to + y {
      assert x == y[..|x|];
    }
  }

  lemma {:induction false} CopyAllSucceeds(e: Env, w: World, src: Path, dst: Path, l: seq<Path>)
    requires NoFaults(e) && AllBelow(l, src)
    requires forall i :: 0 <= i < |l| ==> l[i] in w.files && !Blocked(w.files, Moved(l[i], src, dst))
    requires forall i, j :: 0 <= i < |l| && 0 <= j < |l| ==> !(l[i] < l[j])
    ensures CopyAll(e, w, src, dst, l).err.None?
    decreases |l|
  {
    if l != [] {
      var to := Moved(l[0], src, dst);
      CopyAllStep(e, w, src, dst, l);
      CopyFileSucceeds(e, w, l[0], to);
      var c := CopyFile(e, w, l[0], to);
      hide CopyAll, CopyFile, NoFaults, Blocked;
      forall i | 0 <= i < |l[1..]|
        ensures l[1..][i] in c.world.files && !Blocked(c.world.files, Moved(l[1..][i], src, dst))
      {
        assert l[1..][i] == l[i + 1];
        MovedApart(l[0], l[i + 1], src, dst);
        MovedApart(l[i + 1], l[0], src, dst);
        StillFree(w.files, to, c.world.files[to], Moved(l[i + 1], src, dst));
      }
      CopyAllSucceeds(e, c.world, src, dst, l[1..]);
    }
  }

  lemma CopyFileSucceeds(e: Env, w: World, src: Path, dst: Path)
    requires NoFaults(e) && src in w.files && !Blocked(w.files, dst)
    ensures var c := CopyFile(e, w, src, dst);
      c.err.None? && dst in c.world.files && c.world.files == w.files[dst := c.world.files[dst]]
  {
    hide Blocked;
  }

  lemma StillFree(files: FileMap, made: Path, c: Contents, p: Path)
    requires !Blocked(files, p) && !(made < p) && !(p < made)
    ensures !Blocked(files[made := c], p)
  {
  }

  /** Where no call fails, Do copies any file or directory to any place apart from it that is not
      below a file, whatever is there. */
  lemma CopyDoSucceeds(e: Env, w: World, src: Path, dst: Path)
    requires Faithful(e) && WellFormed(w.files) && NoFaults(e) && Apart(src, dst)
    requires (src in w.files || IsDir(w.files, src)) && forall p :: p in w.files ==> !(p < dst)
    ensures CopyDo(e, w, src, dst).err.None?
  {
    var s := Touch(e, w).world;
    var x := RemoveAll(e, s, dst).world;
    assert forall p :: p in x.files <==> p in w.files && !(dst <= p);
    if IsDir(w.files, src) {
      var k :| k in w.files && src < k;
      if dst <= k {
        BothPrefixes(src, dst, k);
      }
      assert IsDir(x.files, src);
      ListedFiles(e, x.files, src);
      var l := e.listing(FilesBelow(x.files, src));
      forall i | 0 <= i < |l|
        ensures l[i] in x.files && !Blocked(x.files, Moved(l[i], src, dst))
      {
        assert l[i] in FilesBelow(x.files, src);
        FreePlace(w.files, x.files, dst, Moved(l[i], src, dst));
      }
      CopyAllSucceeds(e, x, src, dst, l);
    } else {
      assert !(dst <= src);
      FreePlace(w.files, x.files, dst, dst);
    }
  }

  lemma FreePlace(files: FileMap, cleared: FileMap, dst: Path, p: Path)
    requires dst <= p && forall q :: q in cleared ==> q in files && !(dst <= q)
    requires forall q :: q in files ==> !(q < dst)
    ensures !Blocked(cleared, p)
  {
    forall q | q in cleared
      ensures !(q < p) && !(p < q)
    {
      if q < p {
        BothPrefixes(q, dst, p);
      }
    }
  }

  /** Where no call fails, the motd Do succeeds if the directory holds only files and nothing in the
      backup stands in their way. */
  lemma MotdDoSucceeds(e: Env, w: World)
    requires Faithful(e) && WellFormed(w.files) && NoFaults(e) && MOTD !in w.files
    requires forall p :: p in w.files && MOTD < p ==> |p| == |MOTD| + 1 && !Blocked(w.files, InBackup(p))
    ensures MotdDo(e, w).err.None?
  {
    MotdOpened(e, w);
    EntriesListing(e, w.files, MOTD);
    var l := e.listing(Entries(w.files, MOTD));
    forall i | 0 <= i < |l|
      ensures l[i] in w.files && !Blocked(w.files, InBackup(l[i]))
    {
      assert l[i] in Entries(w.files, MOTD);
      EntryIsFile(w.files, MOTD, l[i]);
    }
    hide WellFormed, MotdDo, Entries, Faithful;
    MoveAllSucceeds(e, World(w.files, w.clock + 2), l);
  }

  lemma EntryIsFile(files: FileMap, d: Path, q: Path)
    requires q in Entries(files, d) && forall p :: p in files && d < p ==> |p| == |d| + 1
    ensures q in files && d < q
  {
    var p :| p in files && d < p && p[..|d| + 1] == q;
    assert p[..|d| + 1] == p;
  }

  lemma {:induction false} MoveAllSucceeds(e: Env, w: World, l: seq<Path>)
    requires NoFaults(e) && Listing(l, MOTD)
    requires forall i :: 0 <= i < |l| ==> l[i] in w.files && !Blocked(w.files, InBackup(l[i]))
    ensures MoveAll(e, w, l).err.None?
    decreases |l|
  {
    if l != [] {
      var src := l[0];
      There(src);
      TurnSucceeds(e, w, src);
      ListingTail(l, MOTD);
      var to := InBackup(src);
      var c := CopyScript(e, w, src, to);
      var r := Remove(e, c.world, src);
      assert c.world.files == w.files[to := c.world.files[to]] && r.world.files == c.world.files - {src};
      forall i | 0 <= i < |l[1..]|
        ensures l[1..][i] in r.world.files && !Blocked(r.world.files, InBackup(l[1..][i]))
      {
        assert l[1..][i] == l[i + 1] != src;
        There(l[i + 1]);
        assert |InBackup(l[i + 1])| == |to|;
      }
      hide Blocked, NoFaults;
      MoveAllSucceeds(e, r.world, l[1..]);
    }
  }

  /** Likewise Undo, if the backup holds only files and nothing in the motd directory is in the way. */
  lemma MotdUndoSucceeds(e: Env, w: World)
    requires Faithful(e) && WellFormed(w.files) && NoFaults(e) && BACKUP !in w.files
    requires forall p :: p in w.files && BACKUP < p ==> |p| == |BACKUP| + 1 && !Blocked(w.files, InMotd(p))
    ensures MotdUndo(e, w).err.None?
  {
    ReadDirSame(e, w, BACKUP);
    EntriesListing(e, w.files, BACKUP);
    var l := e.listing(Entries(w.files, BACKUP));
    forall i | 0 <= i < |l|
      ensures l[i] in w.files && !Blocked(w.files, InMotd(l[i]))
    {
      assert l[i] in Entries(w.files, BACKUP);
      EntryIsFile(w.files, BACKUP, l[i]);
    }
    hide WellFormed, Entries, Faithful, RestoreAll;
    RestoreAllSucceeds(e, ReadDir(e, w, BACKUP).world, l);
  }

  lemma {:induction false} RestoreAllSucceeds(e: Env, w: World, l: seq<Path>)
    requires NoFaults(e) && Listing(l, BACKUP)
    requires forall i :: 0 <= i < |l| ==> l[i] in w.files && !Blocked(w.files, InMotd(l[i]))
    ensures RestoreAll(e, w, l).err.None?
    decreases |l|
  {
    if l != [] {
      var src, to := l[0], InMotd(l[0]);
      There(src);
      ListingTail(l, BACKUP);
      var m := Touch(e, w);
      var c := CopyScript(e, m.world, src, to);
      assert m.err.None? && m.world.files == w.files && c.err.None?;
      assert c.world.files == w.files[to := c.world.files[to]];
      forall i | 0 <= i < |l[1..]|
        ensures l[1..][i] in c.world.files && !Blocked(c.world.files, InMotd(l[1..][i]))
      {
        assert l[1..][i] == l[i + 1];
        There(l[i + 1]);
        assert |InMotd(l[i + 1])| == |to|;
      }
      hide Blocked, NoFaults;
      RestoreAllSucceeds(e, c.world, l[1..]);
    }
  }

  // ----------------------------------------- what a failing Do leaves, told from its faults

  /** The move gets through its first turn: both directories can be opened, the first entry is a
      file that can be copied, and it is removed. */
  predicate FirstMoved(e: Env, w: World)
    requires Faithful(e)
  {
    var l := e.listing(Entries(w.files, MOTD));
    && e.fault(w.clock).Fine? && e.fault(w.clock + 1).Fine? && MOTD !in w.files
    && l != [] && TurnDone(e, World(w.files, w.clock + 2), l[0])
  }

  /** One turn of the move loop, from the entry's side. */
  predicate TurnDone(e: Env, w: World, src: Path) {
    && MOTD < src && src in w.files && !Blocked(w.files, InBackup(src))
    && e.fault(w.clock).Fine? && e.fault(w.clock + 1).Fine?
  }

  lemma TurnSucceeds(e: Env, w: World, src: Path)
    requires MOTD < src
    ensures var c := CopyScript(e, w, src, InBackup(src));
      (c.err.None? && Remove(e, c.world, src).err.None?) <==> TurnDone(e, w, src)
  {
    There(src);
    hide Blocked;
  }

  /** A failing motd Do has removed a script if and only if its first turn got through. */
  lemma FailedMotdDo(e: Env, w: World)
    requires Faithful(e) && WellFormed(w.files) && MotdDo(e, w).err.Some?
    ensures (forall p: Path :: MOTD <= p && p in w.files ==> p in MotdDo(e, w).world.files) <==> !FirstMoved(e, w)
  {
    MotdOpened(e, w);
    EntriesListing(e, w.files, MOTD);
    hide MotdDo, MoveAll, WellFormed, Listing, TurnDone, Faithful, Entries;
    if e.fault(w.clock).Fine? && e.fault(w.clock + 1).Fine? && MOTD !in w.files {
      FailedMove(e, World(w.files, w.clock + 2), e.listing(Entries(w.files, MOTD)));
    }
  }

  /** Do reaches its loop if both directories can be opened, and otherwise changes nothing. */
  lemma MotdOpened(e: Env, w: World)
    requires Faithful(e)
    ensures AllBelow(e.listing(Entries(w.files, MOTD)), MOTD)
    ensures if e.fault(w.clock).Fine? && e.fault(w.clock + 1).Fine? && MOTD !in w.files
            then MotdDo(e, w) == MoveAll(e, World(w.files, w.clock + 2), e.listing(Entries(w.files, MOTD)))
            else MotdDo(e, w).world.files == w.files
  {
    ListedBelow(e, w.files, MOTD);
    hide MoveAll, Faithful, Entries;
  }

  lemma FailedMove(e: Env, w: World, l: seq<Path>)
    requires WellFormed(w.files) && Listing(l, MOTD) && MoveAll(e, w, l).err.Some?
    ensures l != []
    ensures (forall p: Path :: MOTD <= p && p in w.files ==> p in MoveAll(e, w, l).world.files) <==>
            !TurnDone(e, w, l[0])
  {
    var src := l[0];
    ListingTail(l, MOTD);
    TurnSucceeds(e, w, src);
    There(src);
    var files := MoveAll(e, w, l).world.files;
    if TurnDone(e, w, src) {
      MoveOne(e, w, src, src);
      hide WellFormed, Listing, CopyScript, Remove;
      var r := Remove(e, CopyScript(e, w, src, InBackup(src)).world, src);
      MoveAllAt(e, r.world, l[1..], src);
      assert MOTD <= src && src in w.files && src !in files;
    } else {
      hide WellFormed, Listing, CopyScript, Remove, TurnDone;
      forall p: Path | MOTD <= p && p in w.files
        ensures p in files
      {
        There(p);
        MoveOne(e, w, src, p);
      }
    }
  }

  /** The third condition of the theorem for a failing motd action. */
  lemma CleanMotd(e: Env, done: seq<Job>, w: World)
    requires Faithful(e) && Sound(done) && WellFormed(w.files) && AllDone(e, done, w)
    requires DoJob(e, AfterJobs(e, done, w), Motd).err.Some?
    ensures var mid := AfterJobs(e, done, w);
      Clean(w.files, DoJob(e, mid, Motd).world.files, done, Motd) <==> HasMotd(done) || !FirstMoved(e, mid)
  {
    var mid := AfterJobs(e, done, w);
    var failed := MotdDo(e, mid).world.files;
    hide WellFormed, Sound, Faithful, AllDone, AfterJobs, HasMotd, InDst, MotdDo, FirstMoved;
    Forward(e, done, w, []);
    FailedMotdDo(e, mid);
    if !HasMotd(done) {
      forall p: Path | MOTD <= p
        ensures p in w.files <==> p in mid.files
      {
        Forward(e, done, w, p);
        ClearOfMotd(done, p);
      }
    }
  }

  /** A directory copied to a place where nothing is: a Do that fails leaves the files as they were
      if and only if the first call fails, or the first file's destination is blocked, or its copy
      fails before it creates the file. */
  lemma FailedDirCopy(e: Env, w: World, src: Path, dst: Path)
    requires Faithful(e) && WellFormed(w.files) && IsDir(w.files, src) && forall p :: p in w.files ==> !(dst <= p)
    requires CopyDo(e, w, src, dst).err.Some?
    ensures var l := e.listing(FilesBelow(w.files, src));
      && l != [] && src < l[0]
      && (CopyDo(e, w, src, dst).world.files == w.files <==>
            || !e.fault(w.clock).Fine? || Blocked(w.files, Moved(l[0], src, dst)) || e.fault(w.clock + 2).Before?)
  {
    var l := e.listing(FilesBelow(w.files, src));
    ListedFiles(e, w.files, src);
    SomeListed(w.files, src, l);
    CopyOfDir(e, w, src, dst);
    if e.fault(w.clock).Fine? {
      assert l[0] in FilesBelow(w.files, src);
      hide WellFormed, Faithful, CopyDo, Blocked, CopyAll;
      FailedCopies(e, World(w.files, w.clock + 2), src, dst, l);
    }
  }

  lemma SomeListed(files: FileMap, d: Path, l: seq<Path>)
    requires IsDir(files, d) && Lists(l, FilesBelow(files, d))
    ensures l != []
  {
    var q :| q in files && d < q;
    assert q in FilesBelow(files, d);
    assert q in l;
  }

  lemma CopyOfDir(e: Env, w: World, src: Path, dst: Path)
    requires Faithful(e) && IsDir(w.files, src) && forall p :: p in w.files ==> !(dst <= p)
    ensures AllBelow(e.listing(FilesBelow(w.files, src)), src)
    ensures CopyDo(e, w, src, dst) ==
            if e.fault(w.clock).Fine?
            then CopyAll(e, World(w.files, w.clock + 2), src, dst, e.listing(FilesBelow(w.files, src)))
            else Touch(e, w)
  {
    ListedFiles(e, w.files, src);
    NothingRemoved(e, Touch(e, w).world, dst);
    hide CopyAll, Faithful, FilesBelow;
  }

  /** Copying file by file breaks off without a trace only in the first file. */
  lemma FailedCopies(e: Env, w: World, src: Path, dst: Path, l: seq<Path>)
    requires AllBelow(l, src) && l != [] && src < l[0] && l[0] in w.files && forall p :: p in w.files ==> !(dst <= p)
    requires CopyAll(e, w, src, dst, l).err.Some?
    ensures CopyAll(e, w, src, dst, l).world.files == w.files <==>
            Blocked(w.files, Moved(l[0], src, dst)) || e.fault(w.clock).Before?
  {
    var to := Moved(l[0], src, dst);
    assert dst <= to;
    CopyAllStep(e, w, src, dst, l);
    hide CopyAll, Blocked;
    var c := CopyFile(e, w, l[0], to);
    if c.err.Some? {
      FailedBytes(e, w, l[0], to);
    } else {
      FineBytes(e, w, l[0], to);
      KeysKept(e, c.world, src, dst, l[1..], to);
    }
  }

  lemma FineBytes(e: Env, w: World, src: Path, dst: Path)
    requires src in w.files && CopyBytes(e, w, src, dst).err.None?
    ensures dst in CopyBytes(e, w, src, dst).world.files && !Blocked(w.files, dst) && e.fault(w.clock).Fine?
  {
    hide Blocked;
  }

  lemma {:induction false} KeysKept(e: Env, w: World, src: Path, dst: Path, l: seq<Path>, p: Path)
    requires AllBelow(l, src) && p in w.files
    ensures p in CopyAll(e, w, src, dst, l).world.files
    decreases |l|
  {
    if l != [] {
      CopyAllStep(e, w, src, dst, l);
      hide CopyAll, Blocked;
      var c := CopyFile(e, w, l[0], Moved(l[0], src, dst));
      assert p in c.world.files;
      if c.err.None? {
        KeysKept(e, c.world, src, dst, l[1..], p);
      }
    }
  }

  /** For any failing copy to a free place, clear of the destinations of the completed jobs, the
      third condition of the theorem is that the files are as the completed jobs left them. */
  lemma CleanCopy(e: Env, done: seq<Job>, j: Job, w: World)
    requires Faithful(e) && Sound(done) && Sound(done + [j]) && WellFormed(w.files) && AllDone(e, done, w) && j.Copy?
    requires forall p: Path :: j.dst <= p ==> p !in AfterJobs(e, done, w).files && !InDst(done, p)
    ensures var mid := AfterJobs(e, done, w);
      Clean(w.files, DoJob(e, mid, j).world.files, done, j) <==> DoJob(e, mid, j).world.files == mid.files
  {
    var mid := AfterJobs(e, done, w);
    var failed := CopyDo(e, mid, j.src, j.dst).world.files;
    hide WellFormed, Sound, Faithful, AllDone, AfterJobs, InDst, CopyDo;
    CleanUnchanged(e, done, j, w);
    Forward(e, done, w, []);
    if Clean(w.files, failed, done, j) {
      forall p: Path
        ensures At(failed, p) == At(mid.files, p)
      {
        CopyDoAt(e, mid, j.src, j.dst, p);
        if j.dst <= p {
          Forward(e, done, w, p);
          assert (done + [j])[..|done + [j]| - 1] == done;
          LastJob(done + [j], p);
          ClearOfMotd(done + [j], p);
        }
      }
      EqualFiles(failed, mid.files);
    }
  }

  lemma EqualFiles(a: FileMap, b: FileMap)
    requires forall p: Path :: At(a, p) == At(b, p)
    ensures a == b
  {
    forall p: Path
      ensures p in a <==> p in b
      ensures p in a ==> a[p] == b[p]
    {
      assert At(a, p) == At(b, p);
    }
  }

  /** So for a directory, too, it can be told from the faults and the files. */
  lemma CleanDirCopy(e: Env, done: seq<Job>, j: Job, w: World)
    requires Faithful(e) && Sound(done) && Sound(done + [j]) && WellFormed(w.files) && AllDone(e, done, w) && j.Copy?
    requires forall p: Path :: j.dst <= p ==> p !in AfterJobs(e, done, w).files && !InDst(done, p)
    requires IsDir(AfterJobs(e, done, w).files, j.src) && DoJob(e, AfterJobs(e, done, w), j).err.Some?
    ensures var mid := AfterJobs(e, done, w);
      var l := e.listing(FilesBelow(mid.files, j.src));
      && l != [] && j.src < l[0]
      && (Clean(w.files, DoJob(e, mid, j).world.files, done, j) <==>
            || !e.fault(mid.clock).Fine? || Blocked(mid.files, Moved(l[0], j.src, j.dst))
            || e.fault(mid.clock + 2).Before?)
  {
    hide WellFormed, Sound, Faithful, AllDone, AfterJobs, InDst, CopyDo, Blocked, IsDir, Clean, FilesBelow;
    var mid := AfterJobs(e, done, w);
    Forward(e, done, w, []);
    CleanCopy(e, done, j, w);
    FailedDirCopy(e, mid, j.src, j.dst);
  }

  // ---------------------------------------------------------------------- registration

  method RegisterMotd(t: Txn<World>, e: Env)
    requires Faithful(e)
    modifies t`actions
    ensures t.actions == old(t.actions) + [JobAction(e, Motd)]
  {
    t.Add(Some(JobAction(e, Motd)));
  }

  method RegisterCopies(t: Txn<World>, e: Env, mappings: seq<(Path, Path)>)
    requires Faithful(e)
    modifies t`actions
    ensures t.actions == old(t.actions) + JobActions(e, CopyJobs(mappings))
  {
    var i := 0;
    while i < |mappings|
      invariant 0 <= i <= |mappings|
      invariant t.actions == old(t.actions) + JobActions(e, CopyJobs(mappings))[..i]
    {
      t.Add(Some(JobAction(e, Copy(mappings[i].0, mappings[i].1))));
      i := i + 1;
    }
  }

  function CopyJobs(mappings: seq<(Path, Path)>): (jobs: seq<Job>)
    ensures |jobs| == |mappings|
    ensures forall i :: 0 <= i < |jobs| ==> jobs[i] == Copy(mappings[i].0, mappings[i].1)
  {
    seq(|mappings|, i requires 0 <= i < |mappings| => Copy(mappings[i].0, mappings[i].1))
  }

  /** The engine's run over registered jobs, in terms of the jobs. */
  lemma RunMeans(e: Env, jobs: seq<Job>, w: World, k: nat)
    requires Faithful(e) && FirstFailure(JobActions(e, jobs), w, k)
    ensures Backward(Doable(JobActions(e, jobs)[..k]), WorldAfter(JobActions(e, jobs)[..k + 1], w))
            == Remains(e, jobs[..k], jobs[k], w)
  {
    hide Backward, Doable, WorldAfter, Faithful, DoJob, JobAction, JobActions;
    assert k < |jobs|;
    JobsPrefix(e, jobs, k);
    JobsPrefix(e, jobs, k + 1);
    JobsDoable(e, jobs[..k]);
    JobsWorld(e, jobs[..k + 1], w);
    assert jobs[..k + 1][..k] == jobs[..k];
  }

  /** Register everything and run: the motd action first, then the copies in order. */
  method Install(e: Env, mappings: seq<(Path, Path)>, w: World) returns (world: World, err: Option<Failure>)
    requires Faithful(e) && WellFormed(w.files) && Sound(CopyJobs(mappings))
    ensures var jobs := [Motd] + CopyJobs(mappings);
      && (err.None? ==> AllDone(e, jobs, w) && world == AfterJobs(e, jobs, w))
      && (err.Some? ==> exists k: nat ::
           && FirstFailure(JobActions(e, jobs), w, k) && world == Remains(e, jobs[..k], jobs[k], w).world)
  {
    hide Backward, Doable, DoCalls, UndoCalls, WorldAfter, FailsAt, AllSucceed;
    hide JobAction, JobActions, Remains, AllDone, AfterJobs, Faithful, WellFormed, Sound;
    var t := new Txn<World>();
    RegisterMotd(t, e);
    RegisterCopies(t, e, mappings);
    ghost var jobs := [Motd] + CopyJobs(mappings);
    JobsJoined(e, CopyJobs(mappings));
    world, err := t.Run(w);
    if err.None? {
      AllMeans(e, jobs, w);
    } else {
      ghost var k: nat :| FirstFailure(JobActions(e, jobs), w, k) &&
        world == Backward(Doable(JobActions(e, jobs)[..k]), WorldAfter(JobActions(e, jobs)[..k + 1], w)).world;
      RunMeans(e, jobs, w, k);
    }
    t.Cleanup();
  }

  lemma JobsJoined(e: Env, copies: seq<Job>)
    requires Faithful(e)
    ensures [] + [JobAction(e, Motd)] + JobActions(e, copies) == JobActions(e, [Motd] + copies)
  {
    hide JobAction, Faithful;
  }

  lemma AllMeans(e: Env, jobs: seq<Job>, w: World)
    requires Faithful(e) && AllSucceed(JobActions(e, jobs), w)
    ensures AllDone(e, jobs, w) && WorldAfter(JobActions(e, jobs), w) == AfterJobs(e, jobs, w)
  {
    DoneBefore(e, jobs, w, |jobs|);
    JobsWorld(e, jobs, w);
    assert jobs[..|jobs|] == jobs;
  }
}
