/** The publication sequence of roles/gitlab_runner/library/gitlab_runner_concurrency.py:
    read, confirm, write a temporary file, compare identity, move, clean up,
    with foreign writers running between any two steps. */
module RunnerPublication {
  import opened Text
  import R = RunnerConfig

  /** identity(): the stat fields that are compared. */
  datatype Identity = Identity(dev: nat, ino: nat, mode: nat, uid: nat, gid: nat, nlink: nat,
                               size: nat, mtime: int, ctime: int)

  datatype File = File(bytes: string, id: Identity)

  datatype Temp = Temp(bytes: string, mtime: int)

  datatype Result = Ok(changed: bool, current: int) | Failure

  /** Program points of main() with the variables live there.  In the finally
      clause, `temporary` says whether the variable of that name was assigned. */
  datatype Pc =
    | Start
    | Opened(fd: nat)
    | Loading(fd: nat, before: Identity, content: string)
    | Loaded(fd: nat, before: Identity, content: string)
    | Planned(fd: nat, before: Identity, content: string, edit: R.Edit)
    | Confirmed(before: Identity, content: string, edit: R.Edit)
    | TempMade(before: Identity, content: string, edit: R.Edit)
    | TempWritten(before: Identity, content: string, edit: R.Edit)
    | Stamped(before: Identity, content: string, edit: R.Edit)
    | Checked(before: Identity, content: string, edit: R.Edit)
    | Unwinding(result: Result, temporary: bool)
    | Exited(result: Result)

  datatype Job = Job(loads: R.Loader, desired: nat, checkMode: bool)

  /** The filesystem as far as the module sees it, and the module itself.
      `path` is the inode the configuration path names. */
  datatype State = State(inodes: map<nat, File>, path: Option<nat>, temp: Option<Temp>, pc: Pc)

  /** S_ISREG and S_IMODE 0600 together fix st_mode to 0100600. */
  const REGULAR_0600 := 0x8180

  predicate SafeFile(id: Identity) {
    id.mode == REGULAR_0600 && id.uid == 0 && id.nlink == 1
  }

  predicate Writes(job: Job, edit: R.Edit) {
    edit.current != job.desired && !job.checkMode
  }

  // ------------------------------------------------------------------ steps

  ghost predicate SameFiles(s: State, s': State) {
    s'.inodes == s.inodes && s'.path == s.path
  }

  ghost predicate Open(s: State, s': State) {
    s.pc.Start? && s.path.Some? && SameFiles(s, s') && s'.temp == s.temp && s'.pc == Opened(s.path.value)
  }

  ghost predicate Inspect(s: State, s': State) {
    && s.pc.Opened? && s.pc.fd in s.inodes && SafeFile(s.inodes[s.pc.fd].id)
    && SameFiles(s, s') && s'.temp == s.temp
    && s'.pc == Loading(s.pc.fd, s.inodes[s.pc.fd].id, "")
  }

  /** One read() of the open inode: a nonempty chunk, or end of file. */
  ghost predicate Read(s: State, s': State, n: nat) {
    && s.pc.Loading? && s.pc.fd in s.inodes && SameFiles(s, s') && s'.temp == s.temp
    && var bytes := s.inodes[s.pc.fd].bytes;
    && var k := |s.pc.content|;
    && (if k >= |bytes| then s'.pc == Loaded(s.pc.fd, s.pc.before, s.pc.content)
        else 0 < n <= |bytes| - k &&
             s'.pc == Loading(s.pc.fd, s.pc.before, s.pc.content + bytes[k..k + n]))
  }

  ghost predicate Plan(job: Job, s: State, s': State) {
    && s.pc.Loaded? && SameFiles(s, s') && s'.temp == s.temp
    && var edit := R.Candidate(job.loads, s.pc.content, job.desired);
    && edit.Some? && s'.pc == Planned(s.pc.fd, s.pc.before, s.pc.content, edit.value)
  }

  ghost predicate Confirm(s: State, s': State) {
    && s.pc.Planned? && s.pc.fd in s.inodes && s.inodes[s.pc.fd].id == s.pc.before
    && SameFiles(s, s') && s'.temp == s.temp
    && s'.pc == Confirmed(s.pc.before, s.pc.content, s.pc.edit)
  }

  ghost predicate MakeTemp(job: Job, s: State, s': State) {
    && s.pc.Confirmed? && Writes(job, s.pc.edit) && SameFiles(s, s')
    && s'.temp.Some? && s'.temp.value.bytes == ""
    && s'.pc == TempMade(s.pc.before, s.pc.content, s.pc.edit)
  }

  ghost predicate WriteTemp(s: State, s': State) {
    && s.pc.TempMade? && SameFiles(s, s')
    && s'.temp.Some? && s'.temp.value.bytes == s.pc.edit.bytes
    && s'.pc == TempWritten(s.pc.before, s.pc.content, s.pc.edit)
  }

  /** stamp = max(time_ns, before.mtime + 1) */
  ghost predicate Stamp(s: State, s': State, clock: int) {
    && s.pc.TempWritten? && s.temp.Some? && SameFiles(s, s')
    && s'.temp == Some(Temp(s.temp.value.bytes,
                            if clock >= s.pc.before.mtime + 1 then clock else s.pc.before.mtime + 1))
    && s'.pc == Stamped(s.pc.before, s.pc.content, s.pc.edit)
  }

  /** lstat(path) against the identity taken at the start. */
  ghost predicate Check(job: Job, s: State, s': State) {
    && (s.pc.Stamped? || (s.pc.Confirmed? && !Writes(job, s.pc.edit)))
    && s.path.Some? && s.path.value in s.inodes && s.inodes[s.path.value].id == s.pc.before
    && SameFiles(s, s') && s'.temp == s.temp
    && s'.pc == Checked(s.pc.before, s.pc.content, s.pc.edit)
  }

  /** atomic_move: the path names the temporary file's inode from now on. */
  ghost predicate Move(job: Job, s: State, s': State, ino: nat, id: Identity) {
    && s.pc.Checked? && Writes(job, s.pc.edit) && s.temp.Some?
    && ino !in s.inodes && id.ino == ino && id.mtime == s.temp.value.mtime
    && s'.inodes == s.inodes[ino := File(s.temp.value.bytes, id)] && s'.path == Some(ino) && s'.temp == None
    && s'.pc == Unwinding(Ok(true, s.pc.edit.current), true)
  }

  ghost predicate Finish(job: Job, s: State, s': State) {
    && s.pc.Checked? && !Writes(job, s.pc.edit) && SameFiles(s, s') && s'.temp == s.temp
    && s'.pc == Unwinding(Ok(s.pc.edit.current != job.desired, s.pc.edit.current), false)
  }

  /** The variable `temporary` is assigned once mkstemp has returned. */
  predicate TempNamed(job: Job, pc: Pc) {
    pc.TempMade? || pc.TempWritten? || pc.Stamped? || (pc.Checked? && Writes(job, pc.edit))
  }

  /** Any operation may fail.  A failing mkstemp leaves no file; a failing write
      or utime leaves the temporary file with any contents. */
  ghost predicate Fail(job: Job, s: State, s': State) {
    && !s.pc.Unwinding? && !s.pc.Exited? && SameFiles(s, s')
    && (s'.temp == s.temp || ((s.pc.TempMade? || s.pc.TempWritten?) && s'.temp.Some?))
    && s'.pc == Unwinding(Failure, TempNamed(job, s.pc))
  }

  /** The finally clause: unlink the temporary file if its name is known. */
  ghost predicate CleanUp(s: State, s': State) {
    && s.pc.Unwinding? && SameFiles(s, s') && s'.pc == Exited(s.pc.result)
    && s'.temp == if s.pc.temporary then None else s.temp
  }

  ghost predicate ModuleStep(job: Job, s: State, s': State) {
    || Open(s, s') || Inspect(s, s') || (exists n :: Read(s, s', n))
    || Plan(job, s, s') || Confirm(s, s') || MakeTemp(job, s, s') || WriteTemp(s, s')
    || (exists clock :: Stamp(s, s', clock)) || Check(job, s, s')
    || (exists ino, id :: Move(job, s, s', ino, id)) || Finish(job, s, s') || Fail(job, s, s') || CleanUp(s, s')
  }

  ghost predicate WellFormed(s: State) {
    && (forall i :: i in s.inodes ==> s.inodes[i].id.ino == i)
    && (s.path.Some? ==> s.path.value in s.inodes)
  }

  /** A foreign writer may rewrite any inode, create inodes, and point the path
      anywhere; every rewrite moves the change time of the inode forward. */
  ghost predicate ForeignStep(s: State, s': State) {
    && WellFormed(s') && s'.pc == s.pc && s'.temp == s.temp
    && forall i :: i in s.inodes ==>
         i in s'.inodes && (s'.inodes[i] == s.inodes[i] || s'.inodes[i].id.ctime > s.inodes[i].id.ctime)
  }

  ghost predicate Next(job: Job, s: State, s': State) {
    ModuleStep(job, s, s') || ForeignStep(s, s')
  }

  ghost predicate Init(s: State) {
    WellFormed(s) && s.pc.Start? && s.temp.None?
  }

  ghost predicate Run(job: Job, run: seq<State>) {
    && run != [] && Init(run[0])
    && forall t :: 0 <= t < |run| - 1 ==> Next(job, run[t], run[t + 1])
  }

  // -------------------------------------------------------------- invariant

  /** As long as the inode keeps the identity taken at the start, the bytes read
      so far are its bytes. */
  ghost predicate Snapshot(s: State, ino: nat, before: Identity, content: string, whole: bool) {
    && before.ino == ino && ino in s.inodes
    && var f := s.inodes[ino];
    && f.id.ctime >= before.ctime
    && (f.id.ctime == before.ctime ==>
          f.id == before && |content| <= |f.bytes| && f.bytes[..|content|] == content && (whole ==> content == f.bytes))
  }

  ghost predicate Committed(job: Job, s: State) {
    match s.pc
    case Confirmed(before, content, edit) => PlannedEdit(job, s, before, content, edit)
    case TempMade(before, content, edit) => PlannedEdit(job, s, before, content, edit) && Writes(job, edit)
    case TempWritten(before, content, edit) =>
      && PlannedEdit(job, s, before, content, edit) && Writes(job, edit)
      && s.temp.Some? && s.temp.value.bytes == edit.bytes
    case Stamped(before, content, edit) =>
      && PlannedEdit(job, s, before, content, edit) && Writes(job, edit) && ReadyTemp(s, before, edit)
    case Checked(before, content, edit) =>
      && PlannedEdit(job, s, before, content, edit) && (Writes(job, edit) ==> ReadyTemp(s, before, edit))
    case _ => true
  }

  ghost predicate ReadyTemp(s: State, before: Identity, edit: R.Edit) {
    s.temp.Some? && s.temp.value.bytes == edit.bytes && s.temp.value.mtime > before.mtime
  }

  ghost predicate PlannedEdit(job: Job, s: State, before: Identity, content: string, edit: R.Edit) {
    Snapshot(s, before.ino, before, content, true) && R.Candidate(job.loads, content, job.desired) == Some(edit)
  }

  ghost predicate Reading(job: Job, s: State) {
    match s.pc
    case Opened(fd) => fd in s.inodes
    case Loading(fd, before, content) => Snapshot(s, fd, before, content, false)
    case Loaded(fd, before, content) => Snapshot(s, fd, before, content, true)
    case Planned(fd, before, content, edit) =>
      Snapshot(s, fd, before, content, true) && R.Candidate(job.loads, content, job.desired) == Some(edit)
    case _ => true
  }

  /** There is no temporary file before mkstemp, after the finally clause, or
      while its name is unknown. */
  ghost predicate TempOnlyInside(job: Job, s: State) {
    match s.pc
    case Unwinding(_, temporary) => temporary || s.temp.None?
    case _ => TempNamed(job, s.pc) || s.temp.None?
  }

  ghost predicate Inv(job: Job, s: State) {
    WellFormed(s) && Reading(job, s) && Committed(job, s) && TempOnlyInside(job, s)
  }

  lemma SnapshotForeign(s: State, s': State, ino: nat, before: Identity, content: string, whole: bool)
    requires Snapshot(s, ino, before, content, whole) && ForeignStep(s, s')
    ensures Snapshot(s', ino, before, content, whole)
  {
  }

  lemma ForeignKeepsInv(job: Job, s: State, s': State)
    requires Inv(job, s) && ForeignStep(s, s')
    ensures Inv(job, s')
  {
    hide R.Candidate;
    match s.pc
    case Loading(fd, before, content) => SnapshotForeign(s, s', fd, before, content, false);
    case Loaded(fd, before, content) => SnapshotForeign(s, s', fd, before, content, true);
    case Planned(fd, before, content, edit) => SnapshotForeign(s, s', fd, before, content, true);
    case Confirmed(before, content, edit) => SnapshotForeign(s, s', before.ino, before, content, true);
    case TempMade(before, content, edit) => SnapshotForeign(s, s', before.ino, before, content, true);
    case TempWritten(before, content, edit) => SnapshotForeign(s, s', before.ino, before, content, true);
    case Stamped(before, content, edit) => SnapshotForeign(s, s', before.ino, before, content, true);
    case Checked(before, content, edit) => SnapshotForeign(s, s', before.ino, before, content, true);
    case _ =>
  }

  lemma ReadKeepsInv(job: Job, s: State, s': State, n: nat)
    requires Inv(job, s) && Read(s, s', n)
    ensures Inv(job, s')
  {
    var f := s.inodes[s.pc.fd];
    var k := |s.pc.content|;
    if k < |f.bytes| && f.id.ctime == s.pc.before.ctime {
      assert s'.pc.content == s.pc.content + f.bytes[k..k + n];
      assert f.bytes[..k + n] == f.bytes[..k] + f.bytes[k..k + n];
    }
  }

  lemma ModuleKeepsInv(job: Job, s: State, s': State)
    requires Inv(job, s) && ModuleStep(job, s, s')
    ensures Inv(job, s')
  {
    hide R.Candidate;
    if n :| Read(s, s', n) {
      ReadKeepsInv(job, s, s', n);
    } else if clock :| Stamp(s, s', clock) {
    } else if ino, id :| Move(job, s, s', ino, id) {
    }
  }

  lemma {:induction false} RunKeepsInv(job: Job, run: seq<State>, t: nat)
    requires Run(job, run) && t < |run|
    ensures Inv(job, run[t])
  {
    if t > 0 {
      RunKeepsInv(job, run, t - 1);
      assert Next(job, run[t - 1], run[t]);
      hide ModuleStep, ForeignStep, Inv;
      if ModuleStep(job, run[t - 1], run[t]) {
        ModuleKeepsInv(job, run[t - 1], run[t]);
      } else {
        ForeignKeepsInv(job, run[t - 1], run[t]);
      }
    }
  }

  // ---------------------------------------------------------------- results

  /** What the path names. */
  ghost function Current(s: State): File
    requires s.path.Some? && s.path.value in s.inodes
  {
    s.inodes[s.path.value]
  }

  /** If at the move the path still has the identity that was checked, the
      published bytes are the edit of exactly the bytes they replace, with a
      strictly larger modification time. */
  lemma MovePublishesSplice(job: Job, s: State, s': State, ino: nat, id: Identity)
    requires Inv(job, s) && Move(job, s, s', ino, id)
    requires s.path.Some? && Current(s).id == s.pc.before
    ensures s'.path.Some? && s'.path.value in s'.inodes
    ensures R.Candidate(job.loads, Current(s).bytes, job.desired) == Some(R.Edit(s.pc.edit.current, Current(s').bytes))
    ensures Current(s').id.mtime > Current(s).id.mtime && s.pc.edit.current != job.desired
  {
    hide R.Candidate;
    assert s.path.value == s.pc.before.ino;
  }

  /** Over every interleaving: when no foreign step falls between the identity
      check and the move, no foreign update is lost. */
  lemma NoUpdateLost(job: Job, run: seq<State>, t: nat, ino: nat, id: Identity)
    requires Run(job, run) && 0 < t < |run| - 1
    requires ModuleStep(job, run[t - 1], run[t]) && Move(job, run[t], run[t + 1], ino, id)
    ensures run[t].path.Some? && run[t].path.value in run[t].inodes
    ensures run[t + 1].path.Some? && run[t + 1].path.value in run[t + 1].inodes
    ensures R.Candidate(job.loads, Current(run[t]).bytes, job.desired) ==
            Some(R.Edit(run[t].pc.edit.current, Current(run[t + 1]).bytes))
    ensures Current(run[t + 1]).id.mtime > Current(run[t]).id.mtime
  {
    RunKeepsInv(job, run, t);
    CheckBeforeMove(job, run[t - 1], run[t]);
    MovePublishesSplice(job, run[t], run[t + 1], ino, id);
  }

  lemma CheckBeforeMove(job: Job, s: State, s': State)
    requires ModuleStep(job, s, s') && s'.pc.Checked?
    ensures s'.path.Some? && s'.path.value in s'.inodes && Current(s').id == s'.pc.before
  {
    hide R.Candidate;
    assert Check(job, s, s');
  }

  /** Only the move touches the file: in check mode, or when the value is
      already the desired one, no step of the module ever does. */
  lemma OnlyMoveTouches(job: Job, run: seq<State>, t: nat)
    requires Run(job, run) && t < |run| - 1 && ModuleStep(job, run[t], run[t + 1])
    ensures SameFiles(run[t], run[t + 1]) ||
            (run[t].pc.Checked? && !job.checkMode && run[t].pc.edit.current != job.desired)
  {
    hide R.Candidate;
  }

  // ------------------------------------------ what a run has looked at

  /** A regular file with mode digits 0600, owned by root, with one name. */
  predicate RootPrivate(id: Identity) {
    id.mode / 4096 == 8 && id.mode % 4096 == 6 * 64 && id.uid == 0 && id.nlink == 1
  }

  /** The identity taken at the start, once there is one. */
  function BeforeOf(pc: Pc): Option<Identity> {
    match pc
    case Loading(_, before, _) => Some(before)
    case Loaded(_, before, _) => Some(before)
    case Planned(_, before, _, _) => Some(before)
    case Confirmed(before, _, _) => Some(before)
    case TempMade(before, _, _) => Some(before)
    case TempWritten(before, _, _) => Some(before)
    case Stamped(before, _, _) => Some(before)
    case Checked(before, _, _) => Some(before)
    case _ => None
  }

  /** In every run, whatever is read, edited or replaced is such a file. */
  lemma {:induction false} OnlyPrivateFiles(job: Job, run: seq<State>, t: nat)
    requires Run(job, run) && t < |run| && BeforeOf(run[t].pc).Some?
    ensures RootPrivate(BeforeOf(run[t].pc).value)
  {
    hide R.Candidate, ForeignStep;
    assert t > 0;
    assert Next(job, run[t - 1], run[t]);
    if BeforeOf(run[t - 1].pc).Some? {
      OnlyPrivateFiles(job, run, t - 1);
    }
    if ForeignStep(run[t - 1], run[t]) {
      ForeignKeepsPc(run[t - 1], run[t]);
    }
  }

  lemma ForeignKeepsPc(s: State, s': State)
    requires ForeignStep(s, s')
    ensures s'.pc == s.pc
  {
  }

  /** The program points from the confirmation to the move, and what they carry. */
  function EditOf(pc: Pc): Option<(Identity, string, R.Edit)> {
    match pc
    case Confirmed(before, content, edit) => Some((before, content, edit))
    case TempMade(before, content, edit) => Some((before, content, edit))
    case TempWritten(before, content, edit) => Some((before, content, edit))
    case Stamped(before, content, edit) => Some((before, content, edit))
    case Checked(before, content, edit) => Some((before, content, edit))
    case _ => None
  }

  /** At time u one inode held exactly this content under this identity. */
  ghost predicate Held(run: seq<State>, u: nat, before: Identity, content: string) {
    u < |run| && before.ino in run[u].inodes && run[u].inodes[before.ino] == File(content, before)
  }

  /** What is edited was the whole content of the file at one moment. */
  lemma {:induction false} EditedWasThere(job: Job, run: seq<State>, t: nat) returns (u: nat)
    requires Run(job, run) && t < |run| && EditOf(run[t].pc).Some?
    ensures var (before, content, edit) := EditOf(run[t].pc).value;
            u < t && Held(run, u, before, content) && R.Candidate(job.loads, content, job.desired) == Some(edit)
  {
    assert t > 0 && Next(job, run[t - 1], run[t]);
    hide Next, Inv, EditOf, R.Candidate;
    if EditOf(run[t - 1].pc) == EditOf(run[t].pc) {
      u := EditedWasThere(job, run, t - 1);
    } else {
      u := t - 1;
      RunKeepsInv(job, run, u);
      ConfirmStep(job, run[u], run[t]);
    }
  }

  lemma ConfirmStep(job: Job, s: State, s': State)
    requires Inv(job, s) && Next(job, s, s') && EditOf(s'.pc).Some? && EditOf(s.pc) != EditOf(s'.pc)
    ensures var (before, content, edit) := EditOf(s'.pc).value;
            && before.ino in s.inodes && s.inodes[before.ino] == File(content, before)
            && R.Candidate(job.loads, content, job.desired) == Some(edit)
  {
    hide R.Candidate;
    assert Confirm(s, s');
  }

  /** The last point before the result was the check of the path. */
  lemma {:induction false} CheckedWasThere(job: Job, run: seq<State>, t: nat) returns (v: nat)
    requires Run(job, run) && t < |run| && run[t].pc.Checked?
    ensures v < t && EditOf(run[v].pc) == EditOf(run[t].pc)
    ensures run[v].path.Some? && run[v].path.value in run[v].inodes && Current(run[v]).id == run[t].pc.before
  {
    hide R.Candidate;
    assert t > 0 && Next(job, run[t - 1], run[t]);
    if run[t - 1].pc.Checked? {
      assert run[t - 1].pc == run[t].pc;
      v := CheckedWasThere(job, run, t - 1);
    } else {
      v := t - 1;
      assert Check(job, run[v], run[t]);
    }
  }

  /** A successful result: which value it reports. */
  function OkOf(pc: Pc): Option<(bool, int)> {
    match pc
    case Unwinding(Ok(changed, current), _) => Some((changed, current))
    case Exited(Ok(changed, current)) => Some((changed, current))
    case _ => None
  }

  /** A successful run reports the value of a file that was there: at time u an
      inode held content whose accepted edit has that current value, later at v
      the path still had its identity, and `changed` says whether the value
      differs from the desired one. */
  lemma {:induction false} ReportIsTrue(job: Job, run: seq<State>, t: nat)
    returns (u: nat, v: nat, before: Identity, content: string, edit: R.Edit)
    requires Run(job, run) && t < |run| && OkOf(run[t].pc).Some?
    ensures u < v < t && Held(run, u, before, content)
    ensures R.Candidate(job.loads, content, job.desired) == Some(edit)
    ensures run[v].path.Some? && run[v].path.value in run[v].inodes && Current(run[v]).id == before
    ensures OkOf(run[t].pc) == Some((edit.current != job.desired, edit.current))
  {
    hide R.Candidate;
    assert t > 0 && Next(job, run[t - 1], run[t]);
    if OkOf(run[t - 1].pc).Some? {
      assert OkOf(run[t - 1].pc) == OkOf(run[t].pc);
      u, v, before, content, edit := ReportIsTrue(job, run, t - 1);
    } else {
      assert run[t - 1].pc.Checked?;
      v := CheckedWasThere(job, run, t - 1);
      u := EditedWasThere(job, run, v);
      before, content, edit := run[t - 1].pc.before, run[t - 1].pc.content, run[t - 1].pc.edit;
    }
  }

  /** At every exit, successful or not, the temporary file is gone: whenever it
      exists, the finally clause knows its name. */
  lemma ExitLeavesNoTemp(job: Job, run: seq<State>, t: nat)
    requires Run(job, run) && t < |run| && run[t].pc.Exited?
    ensures run[t].temp.None?
  {
    RunKeepsInv(job, run, t);
  }

  /** The window that remains: from every state after the check, any foreign
      bytes written before the move are replaced by the edit of the old ones. */
  lemma ForeignStepInWindowIsLost(job: Job, s: State, rotated: string)
    requires Inv(job, s) && s.pc.Checked? && Writes(job, s.pc.edit) && s.path.Some?
    ensures exists s1, s2, ino, id ::
              && ForeignStep(s, s1) && Names(s1, rotated)
              && Move(job, s1, s2, ino, id) && Names(s2, s.pc.edit.bytes)
  {
    hide R.Candidate;
    var p := s.path.value;
    var f := s.inodes[p];
    var s1 := s.(inodes := s.inodes[p := File(rotated, f.id.(ctime := f.id.ctime + 1))]);
    assert ForeignStep(s, s1);
    var ino := Fresh(s1.inodes.Keys);
    var id := f.id.(ino := ino, mtime := s.temp.value.mtime);
    var s2 := State(s1.inodes[ino := File(s.temp.value.bytes, id)], Some(ino), None,
                    Unwinding(Ok(true, s.pc.edit.current), true));
    assert Move(job, s1, s2, ino, id);
    assert Names(s1, rotated) && Names(s2, s.pc.edit.bytes);
  }

  /** The path names a file with these bytes. */
  ghost predicate Names(s: State, bytes: string) {
    s.path.Some? && s.path.value in s.inodes && Current(s).bytes == bytes
  }

  ghost function Fresh(used: set<nat>): (n: nat)
    ensures n !in used
  {
    var n := Bound(used);
    n
  }

  ghost function Bound(used: set<nat>): (n: nat)
    ensures forall x :: x in used ==> x < n
  {
    if used == {} then 0 else
      var x :| x in used;
      var rest := Bound(used - {x});
      assert forall y :: y in used ==> y == x || y in used - {x};
      if x < rest then rest else x + 1
  }
}
