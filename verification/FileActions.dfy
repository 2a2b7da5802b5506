/**
 * The installer's file actions: the Do and Undo closures of internal/motd/motd.go and
 * internal/fileops/fileops.go, acting on a map from paths to file contents.
 *
 * A directory exists exactly where files lie below it. Every call into the operating system
 * may fail: the environment says, call by call, whether it does and how far it got. It also
 * decides in which order a directory is listed.
 */
module FileActions {
  import opened Prelude
  import opened Transaction

  type Path = seq<string>
  type Contents = seq<int>
  type FileMap = map<Path, Contents>

  const MOTD: Path := ["etc", "update-motd.d"]
  const BACKUP: Path := ["var", "lib", "mimo", "motd-backup"]

  /** How one operating system call ends. */
  datatype Fault = Fine | Before | Partway(written: nat, kept: set<Path>) | After

  datatype Env = Env(listing: set<Path> -> seq<Path>, fault: nat -> Fault)

  /** Listings name every path once. */
  ghost predicate Faithful(e: Env) {
    forall s: set<Path> :: Lists(e.listing(s), s)
  }

  ghost predicate Lists(l: seq<Path>, s: set<Path>) {
    && (forall p :: p in l <==> p in s)
    && (forall i, j :: 0 <= i < j < |l| ==> l[i] != l[j])
  }

  /** Some listing of a set of paths. */
  ghost function Enumerate(s: set<Path>): (l: seq<Path>)
    ensures Lists(l, s)
  {
    if s == {} then []
    else
      var p: Path :| p in s;
      var rest := Enumerate(s - {p});
      assert forall q :: q in [p] + rest <==> q == p || q in rest;
      [p] + rest
  }

  /** There are environments like this, with calls failing wherever one likes. */
  lemma Exists(fault: nat -> Fault)
    ensures exists e: Env :: Faithful(e) && e.fault == fault
  {
    ghost var e := Env((s: set<Path>) => Enumerate(s), fault);
    assert Faithful(e) && e.fault == fault;
  }

  /** clock numbers the calls into the operating system. */
  datatype World = World(files: FileMap, clock: nat)

  function At(files: FileMap, p: Path): Option<Contents> {
    if p in files then Some(files[p]) else None
  }

  predicate Apart(a: Path, b: Path) { !(a <= b) && !(b <= a) }

  predicate IsDir(files: FileMap, p: Path) { exists q :: q in files && p < q }

  /** A file stands where dst needs a directory, or dst is a directory itself. */
  predicate Blocked(files: FileMap, dst: Path) { exists q :: q in files && (q < dst || dst < q) }

  // ---------------------------------------------------- calls into the operating system

  function Answer(files: FileMap, w: World, err: Option<string>): Reply<World> {
    Reply(World(files, w.clock + 1), err)
  }

  /** A call that changes no file: MkdirAll, Stat. */
  function Touch(e: Env, w: World): Reply<World> {
    Answer(w.files, w, if e.fault(w.clock).Fine? then None else Some("error"))
  }

  /** ReadDir; a directory that does not exist reads as empty, a file as an error. */
  function ReadDir(e: Env, w: World, d: Path): Reply<World> {
    Answer(w.files, w, if d !in w.files && e.fault(w.clock).Fine? then None else Some("readdir"))
  }

  function Remove(e: Env, w: World, p: Path): Reply<World> {
    if p in w.files && e.fault(w.clock).Fine? then Answer(w.files - {p}, w, None)
    else Answer(w.files, w, Some("remove"))
  }

  function RemoveAll(e: Env, w: World, d: Path): Reply<World> {
    var gone := set p | p in w.files && d <= p;
    match e.fault(w.clock)
    case Fine => Answer(w.files - gone, w, None)
    case Before => Answer(w.files, w, Some("remove"))
    case Partway(_, kept) => Answer(w.files - (gone - kept), w, Some("remove"))
    case After => Answer(w.files - gone, w, Some("remove"))
  }

  /** Truncate or create dst, then copy what src holds after that. */
  function CopyBytes(e: Env, w: World, src: Path, dst: Path): Reply<World>
    requires src in w.files
  {
    var created := w.files[dst := []];
    var data := created[src];
    if Blocked(w.files, dst) then Answer(w.files, w, Some("create"))
    else match e.fault(w.clock)
      case Fine => Answer(w.files[dst := data], w, None)
      case Before => Answer(w.files, w, Some("create"))
      case Partway(n, _) => Answer(w.files[dst := data[..if n < |data| then n else |data|]], w, Some("copy"))
      case After => Answer(w.files[dst := data], w, Some("copy"))
  }

  // ------------------------------------------------------------------------------ motd

  /** motd's copyFile opens a directory happily and fails only when reading from it. */
  function CopyScript(e: Env, w: World, src: Path, dst: Path): Reply<World> {
    if src in w.files then CopyBytes(e, w, src, dst)
    else if IsDir(w.files, src) && !Blocked(w.files, dst) && !e.fault(w.clock).Before?
    then Answer(w.files[dst := []], w, Some("read"))
    else Answer(w.files, w, Some("open"))
  }

  /** The entries of a directory, as paths: names of files and of directories in it. */
  function Entries(files: FileMap, d: Path): set<Path> {
    set p | p in files && d < p :: p[..|d| + 1]
  }

  /** The same name in another directory. */
  function Moved(p: Path, from: Path, to: Path): Path
    requires from <= p
  {
    to + p[|from|..]
  }

  predicate AllBelow(l: seq<Path>, d: Path) {
    forall i :: 0 <= i < |l| ==> d < l[i]
  }

  /** The loop of Do: copy each entry to the backup, then remove it. */
  function MoveAll(e: Env, w: World, l: seq<Path>): Reply<World>
    requires AllBelow(l, MOTD)
    decreases |l|
  {
    if l == [] then Reply(w, None)
    else
      var c := CopyScript(e, w, l[0], Moved(l[0], MOTD, BACKUP));
      if c.err.Some? then c
      else
        var r := Remove(e, c.world, l[0]);
        if r.err.Some? then r else MoveAll(e, r.world, l[1..])
  }

  /** The loop of Undo: copy each backup entry back. */
  function RestoreAll(e: Env, w: World, l: seq<Path>): Reply<World>
    requires AllBelow(l, BACKUP)
    decreases |l|
  {
    if l == [] then Reply(w, None)
    else
      var m := Touch(e, w);
      if m.err.Some? then m
      else
        var c := CopyScript(e, m.world, l[0], Moved(l[0], BACKUP, MOTD));
        if c.err.Some? then c else RestoreAll(e, c.world, l[1..])
  }

  lemma ListedBelow(e: Env, files: FileMap, d: Path)
    requires Faithful(e)
    ensures Lists(e.listing(Entries(files, d)), Entries(files, d)) && AllBelow(e.listing(Entries(files, d)), d)
  {
    var l := e.listing(Entries(files, d));
    assert Lists(l, Entries(files, d));
    forall i | 0 <= i < |l|
      ensures d < l[i]
    {
      assert l[i] in Entries(files, d);
    }
  }

  function MotdDo(e: Env, w: World): Reply<World>
    requires Faithful(e)
  {
    var m := Touch(e, w);
    if m.err.Some? then m
    else
      var d := ReadDir(e, m.world, MOTD);
      if d.err.Some? then d
      else
        ListedBelow(e, w.files, MOTD);
        MoveAll(e, d.world, e.listing(Entries(w.files, MOTD)))
  }

  function MotdUndo(e: Env, w: World): Reply<World>
    requires Faithful(e)
  {
    var d := ReadDir(e, w, BACKUP);
    if d.err.Some? then d
    else
      ListedBelow(e, w.files, BACKUP);
      RestoreAll(e, d.world, e.listing(Entries(w.files, BACKUP)))
  }

  /** The Do closure of the motd action. */
  method RunMotdDo(e: Env, w: World) returns (r: Reply<World>)
    requires Faithful(e)
    ensures r == MotdDo(e, w)
  {
    var world := w;
    var m := Touch(e, world);
    world := m.world;
    if m.err.Some? {
      return m;
    }
    var d := ReadDir(e, world, MOTD);
    world := d.world;
    if d.err.Some? {
      return d;
    }
    ListedBelow(e, w.files, MOTD);
    var entries := e.listing(Entries(w.files, MOTD));
    ghost var start := world;
    var i := 0;
    assert entries[0..] == entries;
    while i < |entries|
      invariant 0 <= i <= |entries| && AllBelow(entries[i..], MOTD)
      invariant MoveAll(e, start, entries) == MoveAll(e, world, entries[i..])
    {
      var src := entries[i];
      assert entries[i..][0] == src && entries[i..][1..] == entries[i + 1..];
      var c := CopyScript(e, world, src, Moved(src, MOTD, BACKUP));
      if c.err.Some? {
        return c;
      }
      var x := Remove(e, c.world, src);
      if x.err.Some? {
        return x;
      }
      world := x.world;
      i := i + 1;
    }
    return Reply(world, None);
  }

  /** The Undo closure of the motd action. */
  method RunMotdUndo(e: Env, w: World) returns (r: Reply<World>)
    requires Faithful(e)
    ensures r == MotdUndo(e, w)
  {
    var d := ReadDir(e, w, BACKUP);
    var world := d.world;
    if d.err.Some? {
      return d;
    }
    ListedBelow(e, w.files, BACKUP);
    var entries := e.listing(Entries(w.files, BACKUP));
    ghost var start := world;
    var i := 0;
    assert entries[0..] == entries;
    while i < |entries|
      invariant 0 <= i <= |entries| && AllBelow(entries[i..], BACKUP)
      invariant RestoreAll(e, start, entries) == RestoreAll(e, world, entries[i..])
    {
      var src := entries[i];
      assert entries[i..][0] == src && entries[i..][1..] == entries[i + 1..];
      var m := Touch(e, world);
      if m.err.Some? {
        return m;
      }
      var c := CopyScript(e, m.world, src, Moved(src, BACKUP, MOTD));
      if c.err.Some? {
        return c;
      }
      world := c.world;
      i := i + 1;
    }
    return Reply(world, None);
  }

  // ------------------------------------------------------------------------- copying

  /** fileops' CopyFile refuses directories. */
  function CopyFile(e: Env, w: World, src: Path, dst: Path): Reply<World> {
    if src in w.files then CopyBytes(e, w, src, dst) else Answer(w.files, w, Some("stat"))
  }

  /** The walk of CopyDir: every file below src goes to the same place below dst. */
  function CopyAll(e: Env, w: World, src: Path, dst: Path, l: seq<Path>): Reply<World>
    requires AllBelow(l, src)
    decreases |l|
  {
    if l == [] then Reply(w, None)
    else
      var c := CopyFile(e, w, l[0], Moved(l[0], src, dst));
      if c.err.Some? then c else CopyAll(e, c.world, src, dst, l[1..])
  }

  function FilesBelow(files: FileMap, d: Path): set<Path> {
    set p | p in files && d < p
  }

  lemma ListedFiles(e: Env, files: FileMap, d: Path)
    requires Faithful(e)
    ensures Lists(e.listing(FilesBelow(files, d)), FilesBelow(files, d)) && AllBelow(e.listing(FilesBelow(files, d)), d)
  {
    var l := e.listing(FilesBelow(files, d));
    assert Lists(l, FilesBelow(files, d));
    forall i | 0 <= i < |l|
      ensures d < l[i]
    {
      assert l[i] in FilesBelow(files, d);
    }
  }

  function CopyDo(e: Env, w: World, src: Path, dst: Path): Reply<World>
    requires Faithful(e)
  {
    var s := Touch(e, w);
    if s.err.Some? then s
    else if src !in w.files && !IsDir(w.files, src) then Reply(s.world, Some("stat"))
    else
      var x := RemoveAll(e, s.world, dst).world;
      if !IsDir(w.files, src) then CopyFile(e, x, src, dst)
      else if !IsDir(x.files, src) then Reply(x, Some("stat"))
      else
        ListedFiles(e, x.files, src);
        CopyAll(e, x, src, dst, e.listing(FilesBelow(x.files, src)))
  }

  function CopyUndo(e: Env, w: World, dst: Path): Reply<World> {
    RemoveAll(e, w, dst)
  }
}
