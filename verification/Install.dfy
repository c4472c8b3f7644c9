/** Installation of a release binary (release/install-atomic.sh:67-101) as a
    sequence of file-system commands that may be cut off after any of them, over
    any number of runs of the script. */
module Install {
  import opened Basics

  /** The directory entries involved; the last two carry the shell's pid. */
  datatype Name = Destination | Previous | Staged(pid: nat) | PreviousTmp(pid: nat)

  /** Names map to inodes, inodes to contents. `vetted` remembers the content
      with which an inode last passed the script's checks (or was found
      installed at the beginning). */
  datatype Disk = Disk(names: map<Name, nat>, files: map<nat, bytes>, next: nat, vetted: map<nat, bytes>)

  /** What a run compares with: the digest from SHA256SUMS, and the signature,
      slice and authority checks as one predicate on contents. */
  datatype Release = Release(expected: nat, digest: bytes -> nat, trusted: bytes -> bool)

  datatype Pc = Copy | Copying | Chmod | CheckDigest | CheckTrusted | TestExisting | CheckExisting
              | LinkPrevious | MovePrevious | MoveStaged | CheckInstalled

  datatype Script = Idle(succeeded: bool) | Active(pid: nat, release: Release, pc: Pc, existed: bool)

  datatype System = System(disk: Disk, script: Script)

  /** Start begins a run; Go performs its next command; Wrote is a write of cp;
      Fault makes the current command fail; Signal is a trapped HUP, INT or TERM
      between two commands; Kill ends the script without its exit trap. */
  datatype Event = Start(pid: nat, release: Release) | Go | Wrote(data: bytes) | Fault | Signal | Kill

  function Content(d: Disk, name: Name): bytes
    requires name in d.names && d.names[name] in d.files
  {
    d.files[d.names[name]]
  }

  function Remove(d: Disk, name: Name): Disk {
    d.(names := d.names - {name})
  }

  /** rename(2): atomic; nothing happens if both names are the same inode. */
  function Rename(d: Disk, from: Name, to: Name): Disk
    requires from in d.names
  {
    if to in d.names && d.names[to] == d.names[from] then d
    else d.(names := (d.names - {from})[to := d.names[from]])
  }

  /** cp opens its target: an existing file is truncated in place. */
  function OpenForWriting(d: Disk, name: Name): Disk {
    if name in d.names then d.(files := d.files[d.names[name] := []], vetted := d.vetted - {d.names[name]})
    else d.(names := d.names[name := d.next], files := d.files[d.next := []], next := d.next + 1,
            vetted := d.vetted - {d.next})
  }

  function Append(d: Disk, name: Name, data: bytes): Disk
    requires name in d.names && d.names[name] in d.files
  {
    d.(files := d.files[d.names[name] := d.files[d.names[name]] + data], vetted := d.vetted - {d.names[name]})
  }

  function Link(d: Disk, from: Name, to: Name): Disk
    requires from in d.names
  {
    d.(names := d.names[to := d.names[from]])
  }

  function Vet(d: Disk, name: Name): Disk
    requires name in d.names && d.names[name] in d.files
  {
    d.(vetted := d.vetted[d.names[name] := d.files[d.names[name]]])
  }

  function Cleanup(d: Disk, pid: nat): Disk {
    Remove(Remove(d, Staged(pid)), PreviousTmp(pid))
  }

  /** The script ends, and its exit trap runs. */
  function Exit(s: System, succeeded: bool): System
    requires s.script.Active?
  {
    System(Cleanup(s.disk, s.script.pid), Idle(succeeded))
  }

  function At(s: System, pc: Pc): System
    requires s.script.Active?
  {
    s.(script := s.script.(pc := pc))
  }

  predicate Sane(d: Disk) {
    && (forall name :: name in d.names ==> d.names[name] in d.files)
    && (forall inode :: inode in d.files ==> inode < d.next)
  }

  /** One command of the script. */
  function Command(s: System): System
    requires s.script.Active? && Sane(s.disk)
  {
    var d, r, pid := s.disk, s.script.release, s.script.pid;
    var staged, tmp := Staged(pid), PreviousTmp(pid);
    match s.script.pc
    case Copy => At(s.(disk := OpenForWriting(d, staged)), Copying)
    case Copying => At(s, Chmod)
    case Chmod => if staged in d.names then At(s, CheckDigest) else Exit(s, false)
    case CheckDigest =>
      if staged in d.names && r.digest(Content(d, staged)) == r.expected then At(s, CheckTrusted) else Exit(s, false)
    case CheckTrusted =>
      if staged in d.names && r.trusted(Content(d, staged)) then
        At(s.(disk := Vet(d, staged)), TestExisting)
      else Exit(s, false)
    case TestExisting =>
      var existed := Destination in d.names;
      s.(script := s.script.(pc := if existed then CheckExisting else MoveStaged, existed := existed))
    case CheckExisting =>
      if Destination in d.names && r.trusted(Content(d, Destination)) then At(s, LinkPrevious) else Exit(s, false)
    case LinkPrevious =>
      if Destination in d.names && tmp !in d.names then
        At(s.(disk := Link(d, Destination, tmp)), MovePrevious)
      else Exit(s, false)
    case MovePrevious =>
      if tmp in d.names then At(s.(disk := Rename(d, tmp, Previous)), MoveStaged) else Exit(s, false)
    case MoveStaged =>
      if staged in d.names then At(s.(disk := Rename(d, staged, Destination)), CheckInstalled) else Exit(s, false)
    case CheckInstalled =>
      Exit(s, Destination in d.names && r.digest(Content(d, Destination)) == r.expected &&
           r.trusted(Content(d, Destination)))
  }

  function Next(s: System, e: Event): System
    requires Sane(s.disk)
  {
    if s.script.Idle? then
      if e.Start? then s.(script := Active(e.pid, e.release, Copy, false)) else s
    else
      var staged := Staged(s.script.pid);
      match e
      case Start(_, _) => s
      case Go => Command(s)
      case Wrote(data) =>
        if s.script.pc.Copying? && staged in s.disk.names then s.(disk := Append(s.disk, staged, data)) else s
      case Fault => Exit(s, false)
      case Signal => if s.script.pc.Copying? then s else s.(disk := Cleanup(s.disk, s.script.pid))
      case Kill => s.(script := Idle(false))
  }

  // -------------------------------------------------------------- invariants

  predicate Kept(name: Name) {
    !name.Staged?
  }

  /** Everything but staging files has its vetted content. */
  predicate Intact(d: Disk) {
    forall name :: name in d.names && Kept(name) ==>
      d.names[name] in d.vetted && d.names[name] in d.files && d.files[d.names[name]] == d.vetted[d.names[name]]
  }

  /** A staging file shares its inode with no other name. */
  predicate Unshared(d: Disk) {
    forall a, b :: a in d.names && b in d.names && a != b && a.Staged? ==> d.names[a] != d.names[b]
  }

  predicate Vetted(d: Disk, name: Name) {
    name in d.names ==>
      d.names[name] in d.vetted && d.names[name] in d.files && d.files[d.names[name]] == d.vetted[d.names[name]]
  }

  /** What the current run has established. */
  predicate Progress(s: System) {
    s.script.Active? ==>
      var pc, d, pid := s.script.pc, s.disk, s.script.pid;
      && (pc.TestExisting? || pc.CheckExisting? || pc.LinkPrevious? || pc.MovePrevious? || pc.MoveStaged? ==>
            Vetted(d, Staged(pid)))
      && (pc.MovePrevious? ==>
          Destination in d.names && (PreviousTmp(pid) in d.names ==> d.names[PreviousTmp(pid)] == d.names[Destination]))
      && (pc.MoveStaged? ==>
            (s.script.existed <==> Destination in d.names) &&
            (s.script.existed ==> Previous in d.names && d.names[Previous] == d.names[Destination]))
      && (pc.CheckExisting? || pc.LinkPrevious? || pc.MovePrevious? ==> s.script.existed && Destination in d.names)
      && (pc.LinkPrevious? || pc.MovePrevious? || (pc.MoveStaged? && s.script.existed) ==>
            d.names[Destination] in d.files && s.script.release.trusted(Content(d, Destination)))
  }

  predicate Sound(d: Disk) {
    Sane(d) && Intact(d) && Unshared(d)
  }

  predicate Inv(s: System) {
    Sound(s.disk) && Progress(s)
  }

  lemma OpenKeepsSound(d: Disk, pid: nat)
    requires Sound(d)
    ensures Sound(OpenForWriting(d, Staged(pid)))
  {
  }

  lemma AppendKeepsSound(d: Disk, pid: nat, data: bytes)
    requires Sound(d) && Staged(pid) in d.names
    ensures Sound(Append(d, Staged(pid), data))
  {
  }

  lemma LinkKeepsSound(d: Disk, pid: nat)
    requires Sound(d) && Destination in d.names && PreviousTmp(pid) !in d.names
    ensures Sound(Link(d, Destination, PreviousTmp(pid)))
  {
  }

  lemma RenameKeepsSound(d: Disk, from: Name, to: Name)
    requires Sound(d) && from in d.names && from != to && !to.Staged? && Vetted(d, from)
    ensures Sound(Rename(d, from, to))
  {
  }

  lemma CleanupKeepsSound(d: Disk, pid: nat)
    requires Sound(d)
    ensures Sound(Cleanup(d, pid))
  {
  }

  lemma {:induction false} CommandKeepsSound(s: System)
    requires Inv(s) && s.script.Active?
    ensures Sound(Command(s).disk)
  {
    var d, pid := s.disk, s.script.pid;
    CleanupKeepsSound(d, pid);
    match s.script.pc
    case Copy => OpenKeepsSound(d, pid);
    case LinkPrevious =>
      if Destination in d.names && PreviousTmp(pid) !in d.names {
        LinkKeepsSound(d, pid);
      }
    case MovePrevious =>
      if PreviousTmp(pid) in d.names {
        RenameKeepsSound(d, PreviousTmp(pid), Previous);
      }
    case MoveStaged =>
      if Staged(pid) in d.names {
        RenameKeepsSound(d, Staged(pid), Destination);
      }
    case _ =>
  }

  lemma CommandKeepsProgress(s: System)
    requires Inv(s) && s.script.Active?
    ensures Progress(Command(s))
  {
    hide Intact, Unshared;
  }

  lemma {:induction false} CommandKeepsInv(s: System)
    requires Inv(s) && s.script.Active?
    ensures Inv(Command(s))
  {
    CommandKeepsSound(s);
    CommandKeepsProgress(s);
  }

  lemma {:induction false} NextKeepsInv(s: System, e: Event)
    requires Inv(s)
    ensures Inv(Next(s, e))
  {
    if s.script.Active? {
      var d, pid := s.disk, s.script.pid;
      match e
      case Go => CommandKeepsInv(s);
      case Wrote(data) =>
        if s.script.pc.Copying? && Staged(pid) in d.names {
          AppendKeepsSound(d, pid, data);
        }
      case Fault => CleanupKeepsSound(d, pid);
      case Signal => CleanupKeepsSound(d, pid);
      case _ =>
    }
  }

  /** A run of the whole system; stepping is always possible. */
  function Run(s: System, events: seq<Event>): (t: System)
    requires Inv(s)
    ensures Inv(t)
  {
    if events == [] then s
    else
      var before := Run(s, events[..|events| - 1]);
      NextKeepsInv(before, events[|events| - 1]);
      Next(before, events[|events| - 1])
  }

  /** A directory with an installed binary, or none, and no leftovers. */
  function Fresh(installed: Option<bytes>): System {
    if installed.None? then System(Disk(map[], map[], 0, map[]), Idle(false))
    else System(Disk(map[Destination := 0], map[0 := installed.value], 1, map[0 := installed.value]), Idle(false))
  }

  // ------------------------------------------------------------ main results

  /** The content passed the checks of some run among the events. */
  ghost predicate Approved(content: bytes, events: seq<Event>) {
    exists e :: e in events && e.Start? && Passes(e.release, content)
  }

  predicate Passes(release: Release, content: bytes) {
    release.digest(content) == release.expected && release.trusted(content)
  }

  ghost predicate Started(release: Release, events: seq<Event>) {
    exists e :: e in events && e.Start? && e.release == release
  }

  /** What holds of the installed name and of the current run's staged file. */
  ghost predicate Provenance(s: System, installed: Option<bytes>, events: seq<Event>)
    requires Sane(s.disk)
  {
    var d := s.disk;
    && (installed.Some? ==> Destination in d.names)
    && (Destination in d.names ==>
          (installed.Some? && Content(d, Destination) == installed.value) || Approved(Content(d, Destination), events))
    && (s.script.Active? ==> Started(s.script.release, events) && Checked(s))
  }

  /** The checks the current run has made of its staged file still hold. */
  predicate Checked(s: System)
    requires s.script.Active? && Sane(s.disk)
  {
    var pc, staged, r := s.script.pc, Staged(s.script.pid), s.script.release;
    && (staged in s.disk.names ==>
          && (pc.CheckTrusted? ==> r.digest(Content(s.disk, staged)) == r.expected)
          && (pc.TestExisting? || pc.CheckExisting? || pc.LinkPrevious? || pc.MovePrevious? || pc.MoveStaged? ==>
                Passes(r, Content(s.disk, staged))))
    && (pc.CheckInstalled? ==> Destination in s.disk.names && Passes(r, Content(s.disk, Destination)))
  }

  lemma ApprovedMonotone(content: bytes, events: seq<Event>, e: Event)
    requires Approved(content, events)
    ensures Approved(content, events + [e])
  {
    var f :| f in events && f.Start? && Passes(f.release, content);
    assert f in events + [e];
  }

  lemma StartedMonotone(release: Release, events: seq<Event>, e: Event)
    requires Started(release, events)
    ensures Started(release, events + [e])
  {
    var f :| f in events && f.Start? && f.release == release;
    assert f in events + [e];
  }

  lemma StartedApproves(release: Release, events: seq<Event>, content: bytes)
    requires Started(release, events) && Passes(release, content)
    ensures Approved(content, events)
  {
  }

  /** No command, fault, signal or kill writes into an inode that the installed
      name or its rollback name designates, and neither content ever changes. */
  lemma ActiveInodesAreNeverWritten(s: System, e: Event, name: Name)
    requires Inv(s) && name in s.disk.names && Kept(name)
    ensures s.disk.names[name] in Next(s, e).disk.files
    ensures Next(s, e).disk.files[s.disk.names[name]] == s.disk.files[s.disk.names[name]]
  {
  }

  /** The installed name only ever changes by the final rename, and then the
      rollback name designates the very inode that was installed before, which
      had passed the signature checks. */
  lemma ReplacementKeepsPredecessor(s: System, e: Event)
    requires Inv(s) && Destination in s.disk.names
    ensures var d, d' := s.disk, Next(s, e).disk;
            && Destination in d'.names
            && (d'.names[Destination] != d.names[Destination] ==>
                  && e.Go? && s.script.Active? && s.script.pc.MoveStaged? &&
                     d'.names[Destination] == d.names[Staged(s.script.pid)]
                  && Previous in d'.names && d'.names[Previous] == d.names[Destination]
                  && d'.files[d'.names[Previous]] == d.files[d.names[Destination]]
                  && s.script.release.trusted(d'.files[d'.names[Previous]]))
  {
    if e.Go? && s.script.Active? && s.script.pc.MoveStaged? && Staged(s.script.pid) in s.disk.names {
      assert s.disk.names[Staged(s.script.pid)] != s.disk.names[Destination];
      ActiveInodesAreNeverWritten(s, e, Destination);
    }
  }

  lemma {:induction false} InstalledStep(s: System, installed: Option<bytes>, events: seq<Event>, e: Event)
    requires Inv(s) && Provenance(s, installed, events)
    ensures Sane(Next(s, e).disk)
    ensures var d := Next(s, e).disk;
            && (installed.Some? ==> Destination in d.names)
            && (Destination in d.names ==>
                  (installed.Some? && Content(d, Destination) == installed.value) ||
                  Approved(Content(d, Destination), events))
  {
    NextKeepsInv(s, e);
    var d := s.disk;
    if Destination in d.names {
      ReplacementKeepsPredecessor(s, e);
      ActiveInodesAreNeverWritten(s, e, Destination);
    }
    if s.script.Active? && s.script.pc.MoveStaged? && Staged(s.script.pid) in d.names {
      StartedApproves(s.script.release, events, Content(d, Staged(s.script.pid)));
    }
  }

  lemma CommandChecks(s: System)
    requires Inv(s) && s.script.Active? && Checked(s)
    ensures Sane(Command(s).disk)
    ensures Command(s).script.Active? ==> Checked(Command(s)) && Command(s).script.release == s.script.release
  {
    CommandKeepsInv(s);
    var d, pid := s.disk, s.script.pid;
    match s.script.pc
    case LinkPrevious =>
      if Destination in d.names {
        LinkLeaves(d, pid);
      }
    case MovePrevious =>
      if PreviousTmp(pid) in d.names {
        RenameLeaves(d, PreviousTmp(pid), Previous, Staged(pid));
      }
    case _ =>
  }

  lemma LinkLeaves(d: Disk, pid: nat)
    requires Destination in d.names
    ensures var d' := Link(d, Destination, PreviousTmp(pid));
            d'.files == d.files && (Staged(pid) in d'.names <==> Staged(pid) in d.names) &&
            (Staged(pid) in d.names ==> d'.names[Staged(pid)] == d.names[Staged(pid)])
  {
  }

  lemma RenameLeaves(d: Disk, from: Name, to: Name, other: Name)
    requires from in d.names && other != from && other != to
    ensures var d' := Rename(d, from, to);
            d'.files == d.files && (other in d'.names <==> other in d.names) &&
            (other in d.names ==> d'.names[other] == d.names[other])
  {
  }

  lemma {:induction false} ScriptStep(s: System, e: Event)
    requires Inv(s) && (s.script.Active? ==> Checked(s))
    ensures Sane(Next(s, e).disk)
    ensures var t := Next(s, e);
            t.script.Active? ==>
              Checked(t) && ((s.script.Active? && t.script.release == s.script.release) ||
                             (e.Start? && e.release == t.script.release))
  {
    NextKeepsInv(s, e);
    if e.Go? && s.script.Active? {
      CommandChecks(s);
    }
  }

  lemma {:induction false} ProvenanceStep(s: System, installed: Option<bytes>, events: seq<Event>, e: Event)
    requires Inv(s) && Provenance(s, installed, events)
    ensures Sane(Next(s, e).disk) && Provenance(Next(s, e), installed, events + [e])
  {
    var t := Next(s, e);
    InstalledStep(s, installed, events, e);
    ScriptStep(s, e);
    if Destination in t.disk.names && Approved(Content(t.disk, Destination), events) {
      ApprovedMonotone(Content(t.disk, Destination), events, e);
    }
    if t.script.Active? {
      if s.script.Active? && t.script.release == s.script.release {
        StartedMonotone(t.script.release, events, e);
      } else {
        assert e in events + [e];
      }
    }
  }

  /** Over any number of runs, interrupted anywhere and in any way: a binary
      that was once installed stays installed, and the installed name always
      designates a complete binary: the original one, or one that passed the
      digest and signature checks of a run, byte for byte. */
  lemma {:induction false} InstalledIsAlwaysComplete(installed: Option<bytes>, events: seq<Event>)
    ensures Inv(Fresh(installed))
    ensures var d := Run(Fresh(installed), events).disk;
            && (installed.Some? ==> Destination in d.names)
            && (Destination in d.names ==>
                  (installed.Some? && Content(d, Destination) == installed.value) ||
                  Approved(Content(d, Destination), events))
    ensures Provenance(Run(Fresh(installed), events), installed, events)
  {
    if events != [] {
      var before, e := events[..|events| - 1], events[|events| - 1];
      InstalledIsAlwaysComplete(installed, before);
      ProvenanceStep(Run(Fresh(installed), before), installed, before, e);
      assert before + [e] == events;
    }
  }

  /** The script reports success exactly when its last check is reached without
      a fault, and then the installed binary is one that passed its checks: the
      last check never refuses what the earlier ones let through. */
  lemma {:induction false} SuccessMeansInstalled(installed: Option<bytes>, events: seq<Event>)
    ensures Inv(Fresh(installed))
    ensures var s := Run(Fresh(installed), events);
            s.script.Active? ==>
              var t := Next(s, Go);
              (t.script == Idle(true) <==> s.script.pc.CheckInstalled?) &&
              (t.script == Idle(true) ==>
                 Destination in t.disk.names && t.disk.names[Destination] in t.disk.files &&
                 Passes(s.script.release, Content(t.disk, Destination)))
  {
    InstalledIsAlwaysComplete(installed, events);
    var s := Run(Fresh(installed), events);
    if s.script.Active? {
      CommandKeepsInv(s);
    }
  }

  // ------------------------------------------------- the rollback name, over runs

  /** The disk as it was when the current (or last) run of the script began. */
  function AtStart(s: System, events: seq<Event>): Disk
    requires Inv(s)
  {
    if events == [] then s.disk
    else
      var before := Run(s, events[..|events| - 1]);
      if before.script.Idle? && events[|events| - 1].Start? then before.disk
      else AtStart(s, events[..|events| - 1])
  }

  /** A name designates the same inode, with the same content, on both disks. */
  predicate Same(d: Disk, name: Name, d0: Disk, name0: Name) {
    && (name in d.names <==> name0 in d0.names)
    && (name in d.names ==> d.names[name] == d0.names[name0])
    && (name in d.names ==> d.names[name] in d.files && d.names[name] in d0.files &&
                            d.files[d.names[name]] == d0.files[d.names[name]])
  }

  /** The rollback name holds the predecessor, if there was one. */
  predicate PredecessorKept(d: Disk, d0: Disk, release: Release) {
    if Destination in d0.names then
      Same(d, Previous, d0, Destination) && d0.names[Destination] in d0.files &&
      release.trusted(d0.files[d0.names[Destination]])
    else
      Same(d, Previous, d0, Previous)
  }

  /** How far the current run has come with the two names, against the disk it
      found at its start. */
  predicate Along(s: System, d0: Disk) {
    s.script.Active? ==>
      var pc, d := s.script.pc, s.disk;
      && (!pc.CheckInstalled? ==> Same(d, Destination, d0, Destination))
      && (!pc.MoveStaged? && !pc.CheckInstalled? ==> Same(d, Previous, d0, Previous))
      && (pc.MoveStaged? || pc.CheckInstalled? ==> PredecessorKept(d, d0, s.script.release))
      && (pc.CheckInstalled? ==>
            && Destination in d.names
            && (Destination in d0.names ==> d.names[Destination] != d0.names[Destination]))
  }

  /** Neither a fault, nor a signal, nor a kill, nor a write touches the names. */
  lemma OthersKeepNames(s: System, e: Event)
    requires Inv(s) && s.script.Active? && !e.Go?
    ensures var d, d' := s.disk, Next(s, e).disk;
            forall name :: name in {Destination, Previous} ==>
              (name in d'.names <==> name in d.names) && (name in d.names ==> d'.names[name] == d.names[name])
    ensures Next(s, e).script.Active? ==> Next(s, e).script == s.script
  {
  }

  lemma SameStays(s: System, e: Event, name: Name, d0: Disk, name0: Name)
    requires Inv(s) && Kept(name) && Same(s.disk, name, d0, name0)
    requires var d, d' := s.disk, Next(s, e).disk;
             (name in d'.names <==> name in d.names) && (name in d.names ==> d'.names[name] == d.names[name])
    ensures Same(Next(s, e).disk, name, d0, name0)
  {
    if name in s.disk.names {
      ActiveInodesAreNeverWritten(s, e, name);
    }
  }

  lemma CommandOnDestination(s: System)
    requires Inv(s) && s.script.Active?
    ensures var d, t, staged := s.disk, Command(s), Staged(s.script.pid);
            if t.script.Active? && s.script.pc.MoveStaged? then
              staged in d.names && Destination in t.disk.names && t.disk.names[Destination] == d.names[staged]
            else
              && (Destination in t.disk.names <==> Destination in d.names)
              && (Destination in d.names ==> t.disk.names[Destination] == d.names[Destination])
  {
    hide Intact, Unshared, Progress;
  }

  lemma CommandOnPrevious(s: System)
    requires Inv(s) && s.script.Active?
    ensures var d, t := s.disk, Command(s);
            if t.script.Active? && s.script.pc.MovePrevious? then
              Destination in d.names && Previous in t.disk.names && t.disk.names[Previous] == d.names[Destination]
            else
              && (Previous in t.disk.names <==> Previous in d.names)
              && (Previous in d.names ==> t.disk.names[Previous] == d.names[Previous])
  {
    hide Intact, Unshared;
  }

  /** What each command does to the two names. */
  lemma CommandNames(s: System)
    requires Inv(s) && s.script.Active?
    ensures var d, t, staged := s.disk, Command(s), Staged(s.script.pid);
            && (t.script.Active? && s.script.pc.MoveStaged? ==>
                  staged in d.names && Destination in t.disk.names && t.disk.names[Destination] == d.names[staged])
            && (!(t.script.Active? && s.script.pc.MoveStaged?) ==>
                  (Destination in t.disk.names <==> Destination in d.names) &&
                  (Destination in d.names ==> t.disk.names[Destination] == d.names[Destination]))
            && (t.script.Active? && s.script.pc.MovePrevious? ==>
                  Destination in d.names && Previous in t.disk.names && t.disk.names[Previous] == d.names[Destination])
            && (!(t.script.Active? && s.script.pc.MovePrevious?) ==>
                  (Previous in t.disk.names <==> Previous in d.names) &&
                  (Previous in d.names ==> t.disk.names[Previous] == d.names[Previous]))
  {
    CommandOnDestination(s);
    CommandOnPrevious(s);
    hide Command, Inv;
  }

  lemma CommandPcs(s: System)
    requires Inv(s) && s.script.Active? && Command(s).script.Active?
    ensures var pc, pc' := s.script.pc, Command(s).script.pc;
            && Command(s).script.release == s.script.release
            && (pc'.CheckInstalled? <==> pc.MoveStaged?)
            && (pc'.MoveStaged? <==> pc.MovePrevious? || (pc.TestExisting? && Destination !in s.disk.names))
  {
  }

  lemma FinalRenameKeepsAlong(s: System, d0: Disk)
    requires Inv(s) && s.script.Active? && s.script.pc.MoveStaged? && Along(s, d0) && Command(s).script.Active?
    ensures Along(Command(s), d0)
  {
    CommandNames(s);
    CommandPcs(s);
    assert Next(s, Go) == Command(s);
    SameStays(s, Go, Previous, d0, if Destination in d0.names then Destination else Previous);
    hide Command, Next;
    if Destination in s.disk.names {
      assert s.disk.names[Staged(s.script.pid)] != s.disk.names[Destination];
    }
  }

  lemma RollbackRenameKeepsAlong(s: System, d0: Disk)
    requires Inv(s) && s.script.Active? && s.script.pc.MovePrevious? && Along(s, d0) && Command(s).script.Active?
    ensures Along(Command(s), d0)
  {
    CommandNames(s);
    CommandPcs(s);
    assert Next(s, Go) == Command(s);
    SameStays(s, Go, Destination, d0, Destination);
    hide Command, Next;
  }

  lemma CommandKeepsAlong(s: System, d0: Disk)
    requires Inv(s) && s.script.Active? && Along(s, d0)
    ensures Along(Command(s), d0)
  {
    if Command(s).script.Active? {
      if s.script.pc.MoveStaged? {
        FinalRenameKeepsAlong(s, d0);
      } else if s.script.pc.MovePrevious? {
        RollbackRenameKeepsAlong(s, d0);
      } else {
        CommandNames(s);
        CommandPcs(s);
        assert Next(s, Go) == Command(s);
        hide Command, Next;
        SameStays(s, Go, Destination, d0, Destination);
        SameStays(s, Go, Previous, d0, Previous);
      }
    }
  }

  lemma OtherKeepsAlong(s: System, e: Event, d0: Disk)
    requires Inv(s) && s.script.Active? && !e.Go? && Along(s, d0)
    ensures Along(Next(s, e), d0)
  {
    if Next(s, e).script.Active? {
      OthersKeepNames(s, e);
      hide Next;
      var pc := s.script.pc;
      if !pc.CheckInstalled? {
        SameStays(s, e, Destination, d0, Destination);
      }
      if pc.MoveStaged? || pc.CheckInstalled? {
        SameStays(s, e, Previous, d0, if Destination in d0.names then Destination else Previous);
      } else {
        SameStays(s, e, Previous, d0, Previous);
      }
    }
  }

  lemma {:induction false} RunKeepsAlong(s: System, events: seq<Event>)
    requires Inv(s) && s.script.Idle?
    ensures Along(Run(s, events), AtStart(s, events))
  {
    if events != [] {
      var before, e := Run(s, events[..|events| - 1]), events[|events| - 1];
      RunKeepsAlong(s, events[..|events| - 1]);
      if before.script.Active? {
        if e.Go? {
          CommandKeepsAlong(before, AtStart(s, events));
        } else {
          OtherKeepsAlong(before, e, AtStart(s, events));
        }
      }
    }
  }

  /** A completed upgrade keeps its predecessor: whenever a run of the script,
      after any number of interrupted ones, ends successfully, the rollback name
      designates the very inode that was installed when that run began, with its
      content unchanged and signature-checked, and another inode is installed.
      If nothing was installed, the rollback name is what it was. */
  lemma {:induction false} CompletedUpgradeKeepsPredecessor(installed: Option<bytes>, events: seq<Event>)
    ensures Inv(Fresh(installed))
    ensures var s, d0 := Run(Fresh(installed), events), AtStart(Fresh(installed), events);
            s.script.Active? && Next(s, Go).script == Idle(true) ==>
              var d := Next(s, Go).disk;
              && PredecessorKept(d, d0, s.script.release)
              && Destination in d.names && (Destination in d0.names ==> d.names[Destination] != d0.names[Destination])
  {
    var s, d0 := Run(Fresh(installed), events), AtStart(Fresh(installed), events);
    RunKeepsAlong(Fresh(installed), events);
    if s.script.Active? && Next(s, Go).script == Idle(true) {
      SuccessMeansInstalled(installed, events);
      CommandNames(s);
      assert Next(s, Go) == Command(s);
      SameStays(s, Go, Previous, d0, if Destination in d0.names then Destination else Previous);
    }
  }

  /** The rollback name is never lost, and changes only by its own rename, to
      the installed inode. */
  lemma RollbackChangesOnlyByItsRename(s: System, e: Event)
    requires Inv(s)
    ensures var d, d' := s.disk, Next(s, e).disk;
            && (Previous in d.names ==> Previous in d'.names)
            && (Previous in d'.names && !(Previous in d.names && d'.names[Previous] == d.names[Previous]) ==>
                  && e.Go? && s.script.Active? && s.script.pc.MovePrevious?
                  && Destination in d.names && d'.names[Previous] == d.names[Destination])
  {
    if s.script.Active? {
      if e.Go? {
        CommandNames(s);
      } else {
        OthersKeepNames(s, e);
      }
    }
  }

  // ------------------------------------- when the rollback binary is the installed one

  datatype Took = Neither | Rollback | Final

  /** Which of the two renames took effect last. */
  function LastRename(s: System, events: seq<Event>): Took
    requires Inv(s)
  {
    if events == [] then Neither
    else
      var before, after := Run(s, events[..|events| - 1]), Run(s, events);
      if !events[|events| - 1].Go? || before.script.Idle? || after.script.Idle? then
        LastRename(s, events[..|events| - 1])
      else if before.script.pc.MovePrevious? then Rollback
      else if before.script.pc.MoveStaged? then Final
      else LastRename(s, events[..|events| - 1])
  }

  /** What the last rename says about the two names. */
  predicate Told(d: Disk, last: Took) {
    match last
    case Neither => Previous !in d.names
    case Rollback => Previous in d.names && Destination in d.names && d.names[Previous] == d.names[Destination]
    case Final => Destination in d.names && (Previous in d.names ==> d.names[Previous] != d.names[Destination])
  }

  lemma {:induction false} CommandTells(s: System, last: Took)
    requires Inv(s) && s.script.Active? && Told(s.disk, last)
    ensures var t, pc := Command(s), s.script.pc;
            Told(t.disk, if t.script.Active? && pc.MovePrevious? then Rollback
                         else if t.script.Active? && pc.MoveStaged? then Final else last)
  {
    CommandNames(s);
    hide Command;
  }

  lemma {:induction false} RunTells(s: System, events: seq<Event>)
    requires Inv(s) && Previous !in s.disk.names
    ensures Told(Run(s, events).disk, LastRename(s, events))
  {
    if events != [] {
      var before, e := Run(s, events[..|events| - 1]), events[|events| - 1];
      RunTells(s, events[..|events| - 1]);
      if before.script.Active? {
        if e.Go? {
          CommandTells(before, LastRename(s, events[..|events| - 1]));
        } else {
          OthersKeepNames(before, e);
        }
      }
    }
  }

  /** Exactly when there is no older binary to roll back to: in every reachable
      state, running or interrupted, the rollback name designates the installed
      inode iff, of the two renames, the rollback one was the last to take
      effect. Before either there is no rollback name at all. */
  lemma {:induction false} RollbackIsInstalledIff(installed: Option<bytes>, events: seq<Event>)
    ensures Inv(Fresh(installed))
    ensures var d, last := Run(Fresh(installed), events).disk, LastRename(Fresh(installed), events);
            && (Previous in d.names && Destination in d.names ==>
                  (d.names[Previous] == d.names[Destination] <==> last == Rollback))
            && (last == Rollback ==> Previous in d.names && Destination in d.names)
            && (last == Neither ==> Previous !in d.names)
  {
    RunTells(Fresh(installed), events);
  }

  /** Between the two renames the rollback name is a second name of the installed
      inode, and every way of ending the run there leaves it so: a kill, a
      signal, a fault, or the missing staged file after an earlier signal. */
  lemma InterruptedUpgradeHasNoOlderBinary(s: System)
    requires Inv(s) && s.script.Active? && s.script.pc.MoveStaged? && s.script.existed
    ensures forall e :: e in {Kill, Signal, Fault} || (e == Go && Staged(s.script.pid) !in s.disk.names) ==>
              var d := Next(s, e).disk;
              Previous in d.names && Destination in d.names && d.names[Previous] == d.names[Destination]
  {
  }

  // ---------------------------------------------------- an undisturbed run

  /** The commands from the mode change to the last check. */
  function Commands(existed: bool): nat {
    if existed then 10 else 7
  }

  function Repeat(e: Event, n: nat): seq<Event> {
    if n == 0 then [] else Repeat(e, n - 1) + [e]
  }

  function Writes(parts: seq<bytes>): seq<Event> {
    if parts == [] then [] else Writes(parts[..|parts| - 1]) + [Wrote(parts[|parts| - 1])]
  }

  /** The run of a script that nothing disturbs: cp writes its file in any number
      of parts, and every command has its turn. */
  function Undisturbed(pid: nat, release: Release, parts: seq<bytes>, existed: bool): seq<Event> {
    [Start(pid, release), Go] + Writes(parts) + Repeat(Go, Commands(existed))
  }

  /** The staged file so far, with both names as they were. */
  predicate Staging(s: System, pid: nat, content: bytes, d0: Disk)
    requires Sane(s.disk)
  {
    && s.script.Active? && s.script.pid == pid && s.script.pc == Copying
    && Staged(pid) in s.disk.names && Content(s.disk, Staged(pid)) == content && PreviousTmp(pid) !in s.disk.names
    && Same(s.disk, Destination, d0, Destination)
  }

  lemma StagingStarts(s: System, pid: nat, release: Release)
    requires Inv(s) && s.script.Idle? && PreviousTmp(pid) !in s.disk.names
    ensures var t := Next(Next(s, Start(pid, release)), Go);
            Sane(t.disk) && Staging(t, pid, [], s.disk) && t.script.release == release
  {
    NextKeepsInv(s, Start(pid, release));
    NextKeepsInv(Next(s, Start(pid, release)), Go);
    if Destination in s.disk.names {
      ActiveInodesAreNeverWritten(s, Start(pid, release), Destination);
    }
  }

  lemma StagingWrites(s: System, pid: nat, content: bytes, d0: Disk, data: bytes)
    requires Inv(s) && Staging(s, pid, content, d0)
    ensures Sane(Next(s, Wrote(data)).disk) && Staging(Next(s, Wrote(data)), pid, content + data, d0)
    ensures Next(s, Wrote(data)).script == s.script
  {
    NextKeepsInv(s, Wrote(data));
    hide Intact, Progress;
  }

  lemma {:induction false} StagingRuns(s: System, events: seq<Event>, pid: nat, parts: seq<bytes>, d0: Disk)
    requires Inv(s) && Staging(Run(s, events), pid, [], d0)
    ensures Staging(Run(s, events + Writes(parts)), pid, Concat(parts), d0)
    ensures Run(s, events + Writes(parts)).script == Run(s, events).script
  {
    hide Staging, Inv;
    if parts == [] {
      assert events + Writes(parts) == events;
    } else {
      var front, last := parts[..|parts| - 1], parts[|parts| - 1];
      StagingRuns(s, events, pid, front, d0);
      StagingWrites(Run(s, events + Writes(front)), pid, Concat(front), d0, last);
      RunSnoc(s, events + Writes(front), Wrote(last));
      assert events + Writes(parts) == events + Writes(front) + [Wrote(last)];
    }
  }

  /** Which command comes after k of them, when none fails. */
  function Position(k: nat, existed: bool): Pc
    requires k <= 9
  {
    if k == 0 then Copying
    else if k == 1 then Chmod
    else if k == 2 then CheckDigest
    else if k == 3 then CheckTrusted
    else if k == 4 then TestExisting
    else if !existed then (if k == 5 then MoveStaged else CheckInstalled)
    else if k == 5 then CheckExisting
    else if k == 6 then LinkPrevious
    else if k == 7 then MovePrevious
    else if k == 8 then MoveStaged
    else CheckInstalled
  }

  /** After k commands: a good staged file on its way, or installed. */
  predicate Installing(s: System, pid: nat, release: Release, content: bytes, existed: bool, k: nat)
    requires Sane(s.disk) && k <= 9
  {
    var d, pc := s.disk, Position(k, existed);
    && s.script.Active? && s.script.pid == pid && s.script.pc == pc && Passes(s.script.release, content)
    && (pc.CheckInstalled? ==> Destination in d.names && Content(d, Destination) == content)
    && (!pc.CheckInstalled? ==>
          && Staged(pid) in d.names && Content(d, Staged(pid)) == content
          && (Destination in d.names <==> existed)
          && (existed ==> s.script.release.trusted(Content(d, Destination)))
          && (PreviousTmp(pid) in d.names ==> pc.MovePrevious? || pc.MoveStaged?)
          && (pc.MovePrevious? ==> PreviousTmp(pid) in d.names))
  }

  lemma InstallingCheck(s: System, pid: nat, release: Release, content: bytes, existed: bool, k: nat)
    requires Inv(s) && k < 5 && Installing(s, pid, release, content, existed, k)
    ensures Sane(Next(s, Go).disk) && Installing(Next(s, Go), pid, release, content, existed, k + 1)
    ensures Next(s, Go).script.release == s.script.release
  {
    hide Intact, Unshared, Progress;
  }

  lemma InstallingRename(s: System, pid: nat, release: Release, content: bytes, existed: bool, k: nat)
    requires Inv(s) && 5 <= k < Commands(existed) - 1 && Installing(s, pid, release, content, existed, k)
    ensures Sane(Next(s, Go).disk) && Installing(Next(s, Go), pid, release, content, existed, k + 1)
    ensures Next(s, Go).script.release == s.script.release
  {
    NextKeepsInv(s, Go);
    CommandOnDestination(s);
    hide Intact, Progress;
  }

  lemma InstallingStep(s: System, pid: nat, release: Release, content: bytes, existed: bool, k: nat)
    requires Inv(s) && k < Commands(existed) - 1 && Installing(s, pid, release, content, existed, k)
    ensures Sane(Next(s, Go).disk) && Installing(Next(s, Go), pid, release, content, existed, k + 1)
    ensures Next(s, Go).script.release == s.script.release
  {
    hide Installing, Next, Intact, Unshared, Progress;
    if k < 5 {
      InstallingCheck(s, pid, release, content, existed, k);
    } else {
      InstallingRename(s, pid, release, content, existed, k);
    }
  }

  lemma {:induction false} InstallingRuns(s: System, events: seq<Event>, pid: nat, release: Release, content: bytes,
                                          existed: bool, k: nat)
    requires Inv(s) && k <= Commands(existed) - 1 && Installing(Run(s, events), pid, release, content, existed, 0)
    ensures Installing(Run(s, events + Repeat(Go, k)), pid, release, content, existed, k)
    ensures Run(s, events + Repeat(Go, k)).script.release == Run(s, events).script.release
  {
    hide Installing, Inv;
    if k == 0 {
      assert events + Repeat(Go, 0) == events;
    } else {
      InstallingRuns(s, events, pid, release, content, existed, k - 1);
      InstallingStep(Run(s, events + Repeat(Go, k - 1)), pid, release, content, existed, k - 1);
      RunSnoc(s, events + Repeat(Go, k - 1), Go);
      assert events + Repeat(Go, k) == events + Repeat(Go, k - 1) + [Go];
    }
  }

  lemma InstallingEnds(s: System, pid: nat, release: Release, content: bytes, existed: bool)
    requires Inv(s) && Installing(s, pid, release, content, existed, Commands(existed) - 1)
    ensures Sane(Next(s, Go).disk) && Next(s, Go).script == Idle(true)
    ensures Destination in Next(s, Go).disk.names && Content(Next(s, Go).disk, Destination) == content
  {
    NextKeepsInv(s, Go);
    hide Intact, Unshared, Progress;
  }

  /** An undisturbed run succeeds: from any system at rest without a leftover
      link of this pid (a leftover copy is overwritten), for any release whose
      checks accept the content, in however many parts it is copied, and whether
      nothing is installed or a binary that the checks accept as predecessor, it
      ends well with exactly that content installed. */
  lemma UndisturbedRunInstalls(s: System, pid: nat, release: Release, parts: seq<bytes>)
    requires Inv(s) && s.script.Idle? && PreviousTmp(pid) !in s.disk.names
    requires Passes(release, Concat(parts))
    requires Destination in s.disk.names ==> release.trusted(Content(s.disk, Destination))
    ensures var t := Run(s, Undisturbed(pid, release, parts, Destination in s.disk.names));
            t.script == Idle(true) && Destination in t.disk.names && Content(t.disk, Destination) == Concat(parts)
  {
    var existed, content := Destination in s.disk.names, Concat(parts);
    var first := [Start(pid, release), Go];
    hide Intact, Unshared, Progress, Next, Staging, Installing, Concat, Writes, Repeat, Passes;
    StagingStarts(s, pid, release);
    TwoEvents(s, Start(pid, release), Go);
    StagingRuns(s, first, pid, parts, s.disk);
    var copied := first + Writes(parts);
    StagedIsReady(Run(s, copied), pid, release, content, s.disk);
    InstallingRuns(s, copied, pid, release, content, existed, Commands(existed) - 1);
    var last := copied + Repeat(Go, Commands(existed) - 1);
    InstallingEnds(Run(s, last), pid, release, content, existed);
    RunSnoc(s, last, Go);
    RepeatMore(copied, Commands(existed));
  }

  lemma TwoEvents(s: System, a: Event, b: Event)
    requires Inv(s)
    ensures Inv(Next(s, a)) && Run(s, [a, b]) == Next(Next(s, a), b)
  {
    NextKeepsInv(s, a);
    RunSnoc(s, [], a);
    RunSnoc(s, [] + [a], b);
    assert [] + [a] + [b] == [a, b] && Run(s, []) == s;
  }

  lemma RepeatMore(events: seq<Event>, n: nat)
    requires n > 0
    ensures events + Repeat(Go, n) == events + Repeat(Go, n - 1) + [Go]
  {
  }

  lemma StagedIsReady(s: System, pid: nat, release: Release, content: bytes, d0: Disk)
    requires Sane(s.disk) && Staging(s, pid, content, d0) && s.script.release == release && Passes(release, content)
    requires Destination in d0.names ==> d0.names[Destination] in d0.files && release.trusted(Content(d0, Destination))
    ensures Installing(s, pid, release, content, Destination in d0.names, 0)
  {
  }

  /** Why a run fails otherwise: each check that does not pass ends it, with both
      temporary names gone and both kept names as they were; a kill leaves
      everything; a signal takes the temporary names but not while cp runs, which
      the shell waits for. */
  lemma ChecksRefuse(s: System)
    requires Inv(s) && s.script.Active?
    ensures var d, r, pc, staged, t := s.disk, s.script.release, s.script.pc, Staged(s.script.pid), Next(s, Go);
            (pc.CheckDigest? && (staged in d.names ==> r.digest(Content(d, staged)) != r.expected))
            || (pc.CheckTrusted? && (staged in d.names ==> !r.trusted(Content(d, staged))))
            || (pc.CheckExisting? && !r.trusted(Content(d, Destination)))
            || ((pc.Chmod? || pc.MoveStaged?) && staged !in d.names) ==>
              && t == Next(s, Fault) && t.script == Idle(false)
              && t.disk == d.(names := d.names - {staged} - {PreviousTmp(s.script.pid)})
    ensures Next(s, Fault).script == Idle(false)
    ensures Next(s, Kill) == s.(script := Idle(false))
    ensures Next(s, Signal) ==
            if s.script.pc.Copying? then s
            else s.(disk := s.disk.(names := s.disk.names - {Staged(s.script.pid)} - {PreviousTmp(s.script.pid)}))
  {
    hide Intact, Unshared;
  }

  // --------------------------------------------------------- after a signal

  /** A run that has lost its staged file, or has failed already. */
  predicate Doomed(s: System) {
    match s.script
    case Idle(succeeded) => !succeeded
    case Active(pid, _, pc, _) => !pc.Copy? && !pc.CheckInstalled? && Staged(pid) !in s.disk.names
  }

  lemma DoomedStays(s: System, e: Event)
    requires Inv(s) && Doomed(s) && !e.Start?
    ensures Doomed(Next(s, e))
    ensures var d, d' := s.disk, Next(s, e).disk;
            && (Destination in d'.names <==> Destination in d.names)
            && (Destination in d.names ==> d'.names[Destination] == d.names[Destination])
  {
    if s.script.Active? {
      if e.Go? {
        CommandNames(s);
      } else {
        OthersKeepNames(s, e);
      }
    }
  }

  lemma {:induction false} DoomedRunFails(s: System, later: seq<Event>)
    requires Inv(s) && Doomed(s) && forall e :: e in later ==> !e.Start?
    ensures Doomed(Run(s, later))
    ensures var d, d' := s.disk, Run(s, later).disk;
            && (Destination in d'.names <==> Destination in d.names)
            && (Destination in d.names ==> d'.names[Destination] == d.names[Destination])
  {
    if later != [] {
      DoomedRunFails(s, later[..|later| - 1]);
      DoomedStays(Run(s, later[..|later| - 1]), later[|later| - 1]);
    }
  }

  /** A trapped signal does not end the script, but when it comes between the
      copy and the final rename the run can only fail: it never reports success,
      and the installed name keeps its inode. */
  lemma {:induction false} SignalledRunFails(s: System, later: seq<Event>)
    requires Inv(s) && s.script.Active? && !s.script.pc.Copy? && !s.script.pc.Copying? && !s.script.pc.CheckInstalled?
    requires forall e :: e in later ==> !e.Start?
    ensures Inv(Next(s, Signal)) && Next(s, Signal).script == s.script
    ensures var d, t := s.disk, Run(Next(s, Signal), later);
            && t.script != Idle(true)
            && (Destination in t.disk.names <==> Destination in d.names)
            && (Destination in d.names ==> t.disk.names[Destination] == d.names[Destination])
  {
    NextKeepsInv(s, Signal);
    DoomedRunFails(Next(s, Signal), later);
  }

  /** Without a staged file, at one of the last commands. */
  predicate Unstaged(s: System, pc: Pc, installed: nat) {
    && s.script.Active? && s.script.pc == pc && Staged(s.script.pid) !in s.disk.names
    && Destination in s.disk.names && s.disk.names[Destination] == installed
  }

  lemma LinkWithoutStaged(s: System, installed: nat)
    requires Inv(s) && Unstaged(s, LinkPrevious, installed) && PreviousTmp(s.script.pid) !in s.disk.names
    ensures Inv(Next(s, Go)) && Unstaged(Next(s, Go), MovePrevious, installed)
    ensures PreviousTmp(Next(s, Go).script.pid) in Next(s, Go).disk.names
  {
    NextKeepsInv(s, Go);
    hide Intact, Unshared, Progress;
  }

  lemma RollbackWithoutStaged(s: System, installed: nat)
    requires Inv(s) && Unstaged(s, MovePrevious, installed) && PreviousTmp(s.script.pid) in s.disk.names
    ensures Inv(Next(s, Go)) && Unstaged(Next(s, Go), MoveStaged, installed)
    ensures Previous in Next(s, Go).disk.names && Next(s, Go).disk.names[Previous] == installed
  {
    NextKeepsInv(s, Go);
    CommandOnPrevious(s);
    hide Intact, Unshared, Progress;
  }

  /** It may still replace the rollback binary: after a signal just before the
      hard link is made the script makes it, renames it to the rollback name, and
      then fails at the missing staged file. */
  lemma SignalledRunMayLoseRollback(s: System)
    requires Inv(s) && s.script.Active? && s.script.pc.LinkPrevious?
    ensures Inv(Next(s, Signal)) && Inv(Next(Next(s, Signal), Go))
    ensures Inv(Next(Next(Next(s, Signal), Go), Go))
    ensures var t := Next(Next(Next(Next(s, Signal), Go), Go), Go);
            && t.script == Idle(false)
            && Destination in t.disk.names && t.disk.names[Destination] == s.disk.names[Destination]
            && Previous in t.disk.names && t.disk.names[Previous] == s.disk.names[Destination]
  {
    var installed, s1 := s.disk.names[Destination], Next(s, Signal);
    NextKeepsInv(s, Signal);
    assert Unstaged(s1, LinkPrevious, installed) && PreviousTmp(s1.script.pid) !in s1.disk.names;
    hide Inv, Next;
    LinkWithoutStaged(s1, installed);
    RollbackWithoutStaged(Next(s1, Go), installed);
    FailWithoutStaged(Next(Next(s1, Go), Go), installed);
  }

  lemma FailWithoutStaged(s: System, installed: nat)
    requires Inv(s) && Unstaged(s, MoveStaged, installed) && Previous in s.disk.names
    ensures var t := Next(s, Go);
            && t.script == Idle(false)
            && Destination in t.disk.names && t.disk.names[Destination] == installed
            && Previous in t.disk.names && t.disk.names[Previous] == s.disk.names[Previous]
  {
    hide Intact, Unshared, Progress;
  }

  // ------------------------------------------------------- a run that loses it

  /** A release whose checks accept every file. */
  const ANY := Release(0, (content: bytes) => 0, (content: bytes) => true)

  lemma RunSnoc(s: System, events: seq<Event>, e: Event)
    requires Inv(s)
    ensures Run(s, events + [e]) == Next(Run(s, events), e)
  {
    assert (events + [e])[..|events|] == events;
  }

  /** How many commands an upgrade has behind it. */
  function Index(pc: Pc): nat {
    match pc
    case Copy => 0
    case Copying => 1
    case Chmod => 2
    case CheckDigest => 3
    case CheckTrusted => 4
    case TestExisting => 5
    case CheckExisting => 6
    case LinkPrevious => 7
    case MovePrevious => 8
    case MoveStaged => 9
    case CheckInstalled => 10
  }

  /** The two kept names, and no others but this run's temporary ones. */
  predicate Names(d: Disk, installed: nat, previous: Option<nat>) {
    && Destination in d.names && d.names[Destination] == installed
    && (Previous in d.names <==> previous.Some?)
    && (Previous in d.names ==> d.names[Previous] == previous.value)
    && forall name :: name in d.names ==> name in {Destination, Previous, Staged(1), PreviousTmp(1)}
  }

  /** An undisturbed upgrade on its way to the rollback rename. */
  ghost predicate Upgrading(s: System, installed: nat, previous: Option<nat>, k: nat) {
    && s.script.Active? && s.script.pid == 1 && s.script.release == ANY && Index(s.script.pc) == k
    && Names(s.disk, installed, previous)
    && (Staged(1) in s.disk.names <==> k > 0) && (PreviousTmp(1) in s.disk.names <==> k == 8)
  }

  lemma UpgradeStep(s: System, installed: nat, previous: Option<nat>, k: nat)
    requires Sane(s.disk) && k < 8 && Upgrading(s, installed, previous, k)
    ensures Upgrading(Next(s, Go), installed, previous, k + 1)
  {
  }

  lemma {:induction false} UpgradeRuns(s: System, events: seq<Event>, installed: nat, previous: Option<nat>, k: nat)
    returns (all: seq<Event>)
    requires Inv(s) && Upgrading(Run(s, events), installed, previous, 0) && k <= 8
    ensures events <= all && Upgrading(Run(s, all), installed, previous, k)
  {
    all := events;
    if k > 0 {
      all := UpgradeRuns(s, events, installed, previous, k - 1);
      UpgradeStep(Run(s, all), installed, previous, k - 1);
      RunSnoc(s, all, Go);
      all := all + [Go];
    }
  }

  /** Between the two renames, with the staged file still there. */
  ghost predicate Between(s: System, installed: nat, staged: nat) {
    && s.script.Active? && s.script.pc == MoveStaged && s.script.pid == 1 && s.script.release == ANY
    && Names(s.disk, installed, Some(installed)) && PreviousTmp(1) !in s.disk.names
    && Staged(1) in s.disk.names && s.disk.names[Staged(1)] == staged && staged != installed
  }

  lemma RollbackRename(s: System, installed: nat, previous: Option<nat>) returns (staged: nat)
    requires Inv(s) && Upgrading(s, installed, previous, 8) && (previous.Some? ==> previous.value != installed)
    ensures Between(Next(s, Go), installed, staged)
    ensures previous.Some? ==> staged != previous.value
  {
    staged := s.disk.names[Staged(1)];
    assert s.script.pc == MovePrevious;
    assert s.disk.names[PreviousTmp(1)] == installed;
    assert staged != installed && (previous.Some? ==> staged != s.disk.names[Previous]);
    hide Intact, Unshared, Inv;
  }

  /** From a directory at rest an upgrade gets to the point between the renames. */
  lemma {:induction false} UpgradeToRename(s: System, events: seq<Event>, installed: nat, previous: Option<nat>)
    returns (all: seq<Event>, staged: nat)
    requires Inv(s) && Run(s, events).script.Idle?
    requires var d := Run(s, events).disk;
             Names(d, installed, previous) && Staged(1) !in d.names && PreviousTmp(1) !in d.names
    requires previous.Some? ==> previous.value != installed
    ensures events <= all && Between(Run(s, all), installed, staged)
    ensures previous.Some? ==> staged != previous.value
  {
    RunSnoc(s, events, Start(1, ANY));
    assert Upgrading(Next(Run(s, events), Start(1, ANY)), installed, previous, 0);
    hide Inv, Names, Next;
    all := UpgradeRuns(s, events + [Start(1, ANY)], installed, previous, 8);
    RunSnoc(s, all, Go);
    staged := RollbackRename(Run(s, all), installed, previous);
    all := all + [Go];
  }

  lemma FinalRename(s: System, installed: nat, staged: nat)
    requires Sane(s.disk) && Between(s, installed, staged)
    ensures var t := Next(s, Go);
            && t.script.Active? && t.script.pc == CheckInstalled && t.script.pid == 1 && t.script.release == ANY
            && Names(t.disk, staged, Some(installed))
  {
  }

  /** The final rename and the last check. */
  lemma UpgradeEnds(s: System, installed: nat, staged: nat)
    requires Inv(s) && Between(s, installed, staged)
    ensures Inv(Next(s, Go)) && Names(Next(Next(s, Go), Go).disk, staged, Some(installed))
    ensures var t := Next(Next(s, Go), Go);
            t.script == Idle(true) && Staged(1) !in t.disk.names && PreviousTmp(1) !in t.disk.names
  {
    NextKeepsInv(s, Go);
    FinalRename(s, installed, staged);
    var t := Next(s, Go);
    assert Next(t, Go) == Command(t);
    hide Intact, Unshared, Progress, Next, Between;
  }

  lemma KilledBetween(s: System, installed: nat, staged: nat, older: nat)
    requires Inv(s) && Between(s, installed, staged) && older != installed && older != staged
    ensures var t := Next(s, Kill);
            && t.script.Idle? && Destination in t.disk.names && t.disk.names[Destination] == installed
            && forall name :: name in t.disk.names ==> t.disk.names[name] != older
  {
  }

  /** The loss does happen: one upgrade completes and leaves an older binary
      behind the rollback name; the next is killed between its two renames. The
      installed binary is still the same, and no name at all designates the
      older one any more. */
  lemma {:induction false} InterruptedUpgradeLosesOlderBinary() returns (first: seq<Event>, all: seq<Event>)
    ensures Inv(Fresh(Some([1])))
    ensures first <= all
    ensures var one, two := Run(Fresh(Some([1])), first), Run(Fresh(Some([1])), all);
            && one.script == Idle(true) && two.script.Idle?
            && Previous in one.disk.names && Destination in one.disk.names
            && one.disk.names[Previous] != one.disk.names[Destination]
            && Destination in two.disk.names && two.disk.names[Destination] == one.disk.names[Destination]
            && forall name :: name in two.disk.names ==> two.disk.names[name] != one.disk.names[Previous]
  {
    var s, staged, newest := Fresh(Some([1])), 0, 0;
    first, staged := UpgradeToRename(s, [], 0, None);
    UpgradeEnds(Run(s, first), 0, staged);
    hide Next, Inv, Between;
    RunSnoc(s, first, Go);
    RunSnoc(s, first + [Go], Go);
    first := first + [Go] + [Go];
    all, newest := UpgradeToRename(s, first, staged, Some(0));
    KilledBetween(Run(s, all), staged, newest, 0);
    RunSnoc(s, all, Kill);
    all := all + [Kill];
  }
}
