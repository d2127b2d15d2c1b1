/** Crash safety of the documentation bundle swap (scripts/generate_okf_docs_bundle.py). */
module BundleSwap {
  import opened Json

  /** The files of a directory, by relative path. */
  type Tree = map<string, string>

  /** The three directories the swap works on; None if a directory does not exist. */
  datatype Disk = Disk(temporary: Option<Tree>, output: Option<Tree>, backup: Option<Tree>)

  /** The complete new bundle, and whether bundle validation passes a tree. */
  datatype Bundle = Bundle(rendered: Tree, valid: Tree -> bool)

  /** The output is the old bundle, the complete validated new one, or absent; never a mixture. An old
      bundle is intact at the output or backup path until the new one is at the output. */
  predicate Safe(b: Bundle, start: Disk, d: Disk) {
    && (d.output == start.output || d.output.None? || IsNew(b, d))
    && (start.output.Some? ==> d.output == start.output || d.backup == start.output || IsNew(b, d))
  }

  predicate IsNew(b: Bundle, d: Disk) {
    d.output == Some(b.rendered) && b.valid(b.rendered)
  }

  // ---------------------------------------------------------------- atomic operations

  /** The two directories that are deleted file by file. */
  datatype Place = Temporary | Backup

  function TreeAt(d: Disk, p: Place): Option<Tree> {
    if p.Temporary? then d.temporary else d.backup
  }

  function With(d: Disk, p: Place, t: Option<Tree>): Disk {
    if p.Temporary? then d.(temporary := t) else d.(backup := t)
  }

  /** A file of the temporary directory is created or written on. */
  predicate Writes(d: Disk, e: Disk) {
    && d.temporary.Some? && e.temporary.Some? && e == d.(temporary := e.temporary)
    && exists k | k in e.temporary.value :: e.temporary.value == d.temporary.value[k := e.temporary.value[k]]
  }

  /** One file of a directory disappears, or the directory once it is empty. */
  predicate Deletes(d: Disk, e: Disk, p: Place) {
    && TreeAt(d, p).Some?
    && var t := TreeAt(d, p).value;
       || (t == map[] && e == With(d, p, None))
       || (exists k | k in t :: e == With(d, p, Some(t - {k})))
  }

  /** One directory takes another's place; a rename needs a free target. */
  predicate Renames(d: Disk, e: Disk) {
    || (d.output.Some? && d.backup.None? && e == d.(backup := d.output, output := None))
    || (d.temporary.Some? && d.output.None? && e == d.(output := d.temporary, temporary := None))
    || (d.backup.Some? && d.output.None? && e == d.(output := d.backup, backup := None))
  }

  /** One atomic operation of the file system. */
  predicate Next(d: Disk, e: Disk) {
    || (d.temporary.None? && e == d.(temporary := Some(map[])))
    || Writes(d, e) || Deletes(d, e, Temporary) || Deletes(d, e, Backup) || Renames(d, e)
  }

  /** The disks from one atomic operation to the next, up to the present one: no state is left out, so these
      are the states a crash can leave. */
  predicate Trace(history: seq<Disk>, disk: Disk) {
    && history != [] && history[|history| - 1] == disk
    && forall i | 0 <= i < |history| - 1 :: Next(history[i], history[i + 1])
  }

  ghost predicate AllSafe(b: Bundle, start: Disk, history: seq<Disk>) {
    forall i | 0 <= i < |history| :: Safe(b, start, history[i])
  }

  /** What has happened so far: a trace of safe disks. */
  ghost predicate SafeRun(b: Bundle, start: Disk, history: seq<Disk>, disk: Disk) {
    Trace(history, disk) && AllSafe(b, start, history)
  }

  lemma OneMore(b: Bundle, start: Disk, history: seq<Disk>, d: Disk, e: Disk)
    requires SafeRun(b, start, history, d) && Next(d, e) && Safe(b, start, e)
    ensures SafeRun(b, start, history + [e], e) && history <= history + [e]
  {
    hide Next, Safe;
    var all := history + [e];
    assert forall i | 0 <= i < |history| :: all[i] == history[i];
  }

  // ---------------------------------------------------------------- the steps of the swap

  // Any operation may raise, unless the run is calm; how the rename to the output ends is given. A rename happens
  // or does not; writing and deleting a tree can also stop half-way.

  /** How `os.replace(temporary, output)` ends: it works, or it raises an exception that `except Exception`
      catches, and then the rename back works or raises as well, or an interrupt that it does not catch. */
  datatype Placing = Works | Fails(backWorks: bool) | Interrupted

  /** Whether the next operation raises. */
  method Raises(calm: bool) returns (fault: bool)
    ensures calm ==> !fault
  {
    fault := *;
    fault := !calm && fault;
  }

  /** `_write_tree` into the temporary directory. */
  method WriteTree(b: Bundle, start: Disk, disk0: Disk, history0: seq<Disk>, calm: bool)
    returns (raised: bool, disk: Disk, history: seq<Disk>)
    requires disk0.temporary == Some(map[]) && SafeRun(b, start, history0, disk0) && Safe(b, start, disk0)
    ensures disk.temporary.Some? && disk == disk0.(temporary := disk.temporary)
    ensures SafeRun(b, start, history, disk) && history0 <= history
    ensures !raised ==> disk.temporary == Some(b.rendered)
    ensures calm ==> !raised
  {
    hide SafeRun, Next;
    disk, history := disk0, history0;
    var written: Tree := map[];
    var todo := b.rendered.Keys;
    while todo != {}
      invariant todo <= b.rendered.Keys
      invariant written == map k | k in b.rendered && k !in todo :: b.rendered[k]
      invariant disk == disk0.(temporary := Some(written))
      invariant SafeRun(b, start, history, disk) && history0 <= history
    {
      var k :| k in todo;
      var fault := Raises(calm);
      if fault {
        return true, disk, history;
      }
      // The file as far as it is written.
      var part: string := *;
      ghost var before := disk;
      disk := disk.(temporary := Some(written[k := part]));
      WriteIsNext(before, disk, written, k, part);
      OneMore(b, start, history, before, disk);
      history := history + [disk];
      fault := Raises(calm);
      if fault {
        return true, disk, history;
      }
      before := disk;
      todo := todo - {k};
      disk := disk.(temporary := Some(written[k := b.rendered[k]]));
      WriteIsNext(before, disk, written[k := part], k, b.rendered[k]);
      OneMore(b, start, history, before, disk);
      history := history + [disk];
      written := written[k := b.rendered[k]];
    }
    assert written == b.rendered;
    raised := false;
  }

  lemma WriteIsNext(d: Disk, e: Disk, t: Tree, k: string, v: string)
    requires d.temporary == Some(t) && e.temporary.Some? && e == d.(temporary := e.temporary)
    requires e.temporary.value == t[k := v]
    ensures Next(d, e)
  {
    assert k in e.temporary.value && e.temporary.value[k] == v;
  }

  /** The directory may be deleted: no guarantee mentions the temporary one, and the backup is not needed while
      the output holds the old bundle or the new one. */
  predicate Expendable(b: Bundle, start: Disk, d: Disk, p: Place) {
    p.Temporary? || d.output == start.output || IsNew(b, d)
  }

  /** `shutil.rmtree`, file by file; what it leaves when it raises is a part of the tree. */
  method RemoveTree(b: Bundle, start: Disk, disk0: Disk, history0: seq<Disk>, p: Place, calm: bool)
    returns (raised: bool, disk: Disk, history: seq<Disk>)
    requires TreeAt(disk0, p).Some? && Expendable(b, start, disk0, p)
    requires SafeRun(b, start, history0, disk0) && Safe(b, start, disk0)
    ensures disk == With(disk0, p, TreeAt(disk, p)) && (raised <==> TreeAt(disk, p).Some?) && (calm ==> !raised)
    ensures SafeRun(b, start, history, disk) && Safe(b, start, disk) && history0 <= history
  {
    hide SafeRun, Next;
    disk, history := disk0, history0;
    var left := TreeAt(disk0, p).value;
    while left != map[]
      invariant disk == With(disk0, p, Some(left)) && Expendable(b, start, disk, p) && Safe(b, start, disk)
      invariant SafeRun(b, start, history, disk) && history0 <= history
      decreases |left|
    {
      var fault := Raises(calm);
      if fault {
        return true, disk, history;
      }
      var k :| k in left;
      ghost var before := disk;
      disk := With(disk, p, Some(left - {k}));
      DeleteIsNext(before, disk, p, k);
      OneMore(b, start, history, before, disk);
      history := history + [disk];
      left := left - {k};
    }
    var fault := Raises(calm);
    if fault {
      return true, disk, history;
    }
    ghost var before := disk;
    disk := With(disk, p, None);
    DeleteIsNext(before, disk, p, "");
    OneMore(b, start, history, before, disk);
    return false, disk, history + [disk];
  }

  lemma DeleteIsNext(d: Disk, e: Disk, p: Place, k: string)
    requires TreeAt(d, p).Some?
    requires || (TreeAt(d, p).value == map[] && e == With(d, p, None))
             || (k in TreeAt(d, p).value && e == With(d, p, Some(TreeAt(d, p).value - {k})))
    ensures Next(d, e)
  {
  }

  /** The inner try: move the new tree to the output, or put the old one back. */
  method PlaceNew(b: Bundle, start: Disk, disk0: Disk, history0: seq<Disk>, placing: Placing)
    returns (raised: bool, disk: Disk, history: seq<Disk>)
    requires disk0.temporary == Some(b.rendered) && b.valid(b.rendered)
    requires disk0.output.None? && disk0.backup == start.output && SafeRun(b, start, history0, disk0)
    ensures SafeRun(b, start, history, disk) && Safe(b, start, disk) && history0 <= history
    ensures raised <==> !placing.Works?
    ensures !raised ==> IsNew(b, disk) && disk.temporary.None? && disk.backup == start.output
    ensures placing == Fails(true) ==>
              disk.output == start.output && disk.backup.None? && disk.temporary == disk0.temporary
    ensures placing in {Fails(false), Interrupted} ==> disk == disk0
  {
    hide SafeRun, Writes, Deletes;
    disk, history := disk0, history0;
    match placing {
      case Works =>
        disk := disk.(output := disk.temporary, temporary := None);
        OneMore(b, start, history, disk0, disk);
        return false, disk, history + [disk];
      case Fails(backWorks) =>
        if disk.backup.Some? && disk.output.None? && backWorks {
          disk := disk.(output := disk.backup, backup := None);
          OneMore(b, start, history, disk0, disk);
          history := history + [disk];
        }
        return true, disk, history;
      case Interrupted =>
        return true, disk, history;
    }
  }

  /** What a failed placing leaves of the old bundle: back at the output if the rename back works, else at the
      backup path, with no output. */
  predicate RolledBack(start: Disk, disk: Disk, placing: Placing) {
    if placing == Fails(true) then disk.output == start.output && disk.backup.None?
    else disk.output.None? && disk.backup == start.output
  }

  /** The body of the outer try; `reached` says whether it came to placing the new tree. */
  method Swap(b: Bundle, start: Disk, disk0: Disk, history0: seq<Disk>, placing: Placing, calm: bool)
    returns (raised: bool, reached: bool, disk: Disk, history: seq<Disk>)
    requires disk0 == start.(temporary := Some(map[])) && SafeRun(b, start, history0, disk0)
    ensures SafeRun(b, start, history, disk) && Safe(b, start, disk) && history0 <= history
    ensures !raised ==> IsNew(b, disk) && disk.temporary.None? && disk.backup.None?
    ensures !reached ==> raised && disk.output == start.output
    ensures reached && placing.Works? ==> IsNew(b, disk)
    ensures reached && !placing.Works? ==> raised && RolledBack(start, disk, placing)
    ensures calm ==> (reached <==> b.valid(b.rendered)) && (raised <==> !reached || !placing.Works?)
  {
    hide SafeRun, Writes, Deletes;
    reached := false;
    raised, disk, history := WriteTree(b, start, disk0, history0, calm);
    if raised || !b.valid(disk.temporary.value) {
      return true, reached, disk, history;
    }
    if disk.backup.Some? {
      raised, disk, history := RemoveTree(b, start, disk, history, Backup, calm);
      if raised {
        return true, reached, disk, history;
      }
    }
    if disk.output.Some? {
      var fault := Raises(calm);
      if fault {
        return true, reached, disk, history;
      }
      ghost var before := disk;
      disk := disk.(backup := disk.output, output := None);
      OneMore(b, start, history, before, disk);
      history := history + [disk];
    }
    reached := true;
    raised, disk, history := PlaceNew(b, start, disk, history, placing);
    if raised {
      return true, reached, disk, history;
    }
    if disk.backup.Some? {
      raised, disk, history := RemoveTree(b, start, disk, history, Backup, calm);
    }
  }

  /** The finally clause, whether or not the body raised. */
  method CleanUp(b: Bundle, start: Disk, disk0: Disk, history0: seq<Disk>, calm: bool)
    returns (raised: bool, disk: Disk, history: seq<Disk>)
    requires Safe(b, start, disk0) && SafeRun(b, start, history0, disk0)
    ensures SafeRun(b, start, history, disk) && Safe(b, start, disk) && history0 <= history
    ensures disk.output == disk0.output && (disk0.output.None? || disk0.backup.None? ==> disk.backup == disk0.backup)
    ensures calm ==> !raised && disk.temporary.None?
    ensures disk0.temporary.None? && disk0.backup.None? ==> !raised && disk == disk0
  {
    hide SafeRun;
    disk, history, raised := disk0, history0, false;
    if disk.temporary.Some? {
      raised, disk, history := RemoveTree(b, start, disk, history, Temporary, calm);
      if raised {
        return true, disk, history;
      }
    }
    if disk.backup.Some? && disk.output.Some? {
      raised, disk, history := RemoveTree(b, start, disk, history, Backup, calm);
    }
  }

  /** With a fault possible at every operation, from any start (a stale backup included): the disk goes from
      `start` to where the call leaves it by the atomic operations listed in `history`, and is safe all along,
      so a crash at any moment leaves it safe. A normal return leaves the validated new bundle, no temporary
      and no backup. If placing the new tree raises an exception and the rename back works, the old bundle is
      back at the output (or nothing is, if there was none) and no backup remains; otherwise the old bundle
      stays at the backup path. If no other operation raises, placing is tried exactly for a bundle that passes
      validation and the call returns normally exactly if it works. */
  method GenerateBundle(b: Bundle, start: Disk, placing: Placing, calm: bool)
    returns (ok: bool, reached: bool, disk: Disk, history: seq<Disk>)
    requires start.temporary.None?  // mkdtemp picks a fresh name
    ensures Trace(history, disk) && history[0] == start
    ensures AllSafe(b, start, history)
    ensures ok ==> disk == Disk(None, Some(b.rendered), None) && b.valid(b.rendered)
    ensures !ok ==> Safe(b, start, disk)
    ensures !reached ==> !ok && disk.output == start.output
    ensures reached && placing == Works ==> IsNew(b, disk)
    ensures reached && placing == Fails(true) ==> !ok && disk.output == start.output && disk.backup.None?
    ensures reached && placing in {Fails(false), Interrupted} ==>
              !ok && disk.output.None? && disk.backup == start.output
    ensures calm ==> (reached <==> b.valid(b.rendered)) && (ok <==> reached && placing.Works?)
    ensures calm ==> disk.temporary.None?
  {
    disk, history, reached := start, [start], false;
    var fault := Raises(calm);
    if fault {
      return false, reached, disk, history;
    }
    disk := disk.(temporary := Some(map[]));
    OneMore(b, start, history, start, disk);
    history := history + [disk];
    var raised, failed;
    raised, reached, disk, history := Swap(b, start, disk, history, placing, calm);
    failed, disk, history := CleanUp(b, start, disk, history, calm);
    ok := !raised && !failed;
  }
}
