/** Trajectory bookkeeping of `CreateTrajectory` (tools/create_traj.py):
    integrating atoms into a new trajectory file, converting a trajectory
    to `.xyz`, and concatenating the trajectories of a folder.

    The filesystem is a value: a map from path to the frames the file
    holds. A frame is a snapshot of the atoms' state, of type `S`. */
module CreateTraj {
  import opened Builtins
  import opened Dynamics

  type Files<S> = map<string, seq<S>>

  // ---------------------------------------------------------------------
  // Atoms and the frames an integration writes

  /** The atoms object the caller owns; the integrator advances it in place. */
  class Atoms<S> {
    var state: S

    constructor (state: S)
      ensures this.state == state
    {
      this.state := state;
    }
  }

  /** The frames written by an integration from `s0` that takes `count`
      snapshots after the initial one, `interval` steps apart. */
  function Frames<S>(verlet: (real, S) -> S, dt: real, s0: S, interval: nat, count: nat): (r: seq<S>)
    ensures |r| == count + 1
    ensures r[0] == s0
  {
    if count == 0 then [s0]
    else Frames(verlet, dt, s0, interval, count - 1) + [Run(verlet, dt, s0, count * interval)]
  }

  /** Frame `k` is the initial state advanced by `k * interval` steps. */
  lemma {:induction false} FrameAt<S>(verlet: (real, S) -> S, dt: real, s0: S, interval: nat, count: nat, k: nat)
    requires k <= count
    ensures Frames(verlet, dt, s0, interval, count)[k] == Run(verlet, dt, s0, k * interval)
  {
    if k < count {
      FrameAt(verlet, dt, s0, interval, count - 1, k);
    } else if count == 0 {
      assert k * interval == 0;
    }
  }

  /** Consecutive frames are exactly `interval` integrator steps apart. */
  lemma ConsecutiveFrames<S>(verlet: (real, S) -> S, dt: real, s0: S, interval: nat, count: nat, k: nat)
    requires k < count
    ensures var f := Frames(verlet, dt, s0, interval, count);
      f[k + 1] == Run(verlet, dt, f[k], interval)
  {
    FrameAt(verlet, dt, s0, interval, count, k);
    FrameAt(verlet, dt, s0, interval, count, k + 1);
    RunAdd(verlet, dt, s0, k * interval, interval);
    assert k * interval + interval == (k + 1) * interval;
  }

  /** Integrating `c1` intervals and then resuming from the last frame for
      `c2` more gives, once the first file's last frame (the duplicate of
      the second file's first frame) is dropped, the frames of a single
      integration over `c1 + c2` intervals. */
  lemma {:induction false} FramesResume<S>(verlet: (real, S) -> S, dt: real, s0: S, interval: nat, c1: nat, c2: nat)
    ensures Frames(verlet, dt, s0, interval, c1 + c2)
         == AllButLast(Frames(verlet, dt, s0, interval, c1))
            + Frames(verlet, dt, Run(verlet, dt, s0, c1 * interval), interval, c2)
  {
    var s1 := Run(verlet, dt, s0, c1 * interval);
    if c2 == 0 {
      var f := Frames(verlet, dt, s0, interval, c1);
      FrameAt(verlet, dt, s0, interval, c1, c1);
      AllButLastThenLast(f);
    } else {
      FramesResume(verlet, dt, s0, interval, c1, c2 - 1);
      RunAdd(verlet, dt, s0, c1 * interval, c2 * interval);
      assert c1 * interval + c2 * interval == (c1 + c2) * interval;
    }
  }

  /** `len(range(n_steps // save_interval))`: how many snapshots follow the
      initial one. */
  function Intervals(nSteps: nat, saveInterval: int): (c: nat)
    requires saveInterval != 0
    ensures c > 0 ==> saveInterval > 0
    ensures saveInterval > 0 ==> c * saveInterval <= nSteps < c * saveInterval + saveInterval
  {
    var q := FloorDiv(nSteps, saveInterval);
    if q > 0 then q else 0
  }

  /** The integrator steps one call takes: whole intervals only, so at most
      `nSteps`, less than one interval short of it, and a multiple of the
      interval; nothing at all for a negative interval. */
  function StepsTaken(nSteps: nat, saveInterval: int): (r: nat)
    requires saveInterval != 0
    ensures r <= nSteps
    ensures saveInterval > 0 ==> nSteps - r < saveInterval && r % saveInterval == 0
    ensures saveInterval < 0 ==> r == 0
  {
    var c := Intervals(nSteps, saveInterval);
    if c == 0 then 0 else MultipleMod(c, saveInterval); c * saveInterval
  }

  /** `c * m` leaves no remainder modulo `m`. */
  lemma MultipleMod(c: nat, m: nat)
    requires m > 0
    ensures (c * m) % m == 0
  {
    var q, rem := (c * m) / m, (c * m) % m;
    assert c * m == q * m + rem;
    assert (c - q) * m == rem;
    if c - q >= 1 {
      assert false;
    } else if c - q <= -1 {
      assert false;
    }
  }

  datatype IntegrationOutcome =
    | Integrated
      /** the assertion that the trajectory does not exist yet failed */
    | TrajectoryExists(path: string)
      /** `n_steps // 0` raised after the initial frame was written */
    | ZeroSaveInterval

  class CreateTrajectory {
    /** Integrator steps taken over the life of this object. */
    var steps: nat
    /** Time step handed to the integrator on every call. */
    const timestep: real

    constructor (timestep: real := 1.0)
      ensures steps == 0 && this.timestep == timestep
    {
      steps := 0;
      this.timestep := timestep;
    }

    /** Writes a new trajectory `trajFile`: the current state, then a
        snapshot after every `saveInterval` steps, `nSteps // saveInterval`
        times. An existing `trajFile` is refused before anything happens;
        no other file is touched. */
    method IntegrateAtoms<S>(atoms: Atoms<S>, files: Files<S>, trajFile: string, nSteps: nat,
                             saveInterval: int, verlet: (real, S) -> S)
      returns (outcome: IntegrationOutcome, files': Files<S>)
      modifies this, atoms
      ensures trajFile in files ==>
        && outcome == TrajectoryExists(trajFile)
        && files' == files && steps == old(steps) && atoms.state == old(atoms.state)
      ensures trajFile !in files && saveInterval == 0 ==>
        && outcome == ZeroSaveInterval
        && files' == files[trajFile := [old(atoms.state)]]
        && steps == old(steps) && atoms.state == old(atoms.state)
      ensures trajFile !in files && saveInterval != 0 ==>
        && outcome == Integrated
        && steps == old(steps) + StepsTaken(nSteps, saveInterval)
        && atoms.state == Run(verlet, timestep, old(atoms.state), StepsTaken(nSteps, saveInterval))
      ensures trajFile !in files && saveInterval < 0 ==>
        files' == files[trajFile := [old(atoms.state)]]
      ensures trajFile !in files && saveInterval > 0 ==>
        files' == files[trajFile := Frames(verlet, timestep, old(atoms.state), saveInterval,
                                           Intervals(nSteps, saveInterval))]
    {
      if trajFile in files {
        return TrajectoryExists(trajFile), files;
      }
      ghost var s0 := atoms.state;
      files' := files[trajFile := []];
      files' := files'[trajFile := files'[trajFile] + [atoms.state]];
      assert files'[trajFile] == [s0];
      if saveInterval == 0 {
        return ZeroSaveInterval, files';
      }
      var count := FloorDiv(nSteps, saveInterval);
      var i := 0;
      ghost var elapsed: nat := 0;
      while i < count
        invariant 0 <= i <= Intervals(nSteps, saveInterval)
        invariant elapsed == i * saveInterval
        invariant atoms.state == Run(verlet, timestep, s0, elapsed)
        invariant steps == old(steps) + elapsed
        invariant saveInterval < 0 ==> files' == files[trajFile := [s0]]
        invariant saveInterval > 0 ==> files' == files[trajFile := Frames(verlet, timestep, s0, saveInterval, i)]
      {
        RunAdd(verlet, timestep, s0, elapsed, saveInterval);
        assert (i + 1) * saveInterval == elapsed + saveInterval;
        atoms.state := Run(verlet, timestep, atoms.state, saveInterval);
        files' := files'[trajFile := files'[trajFile] + [atoms.state]];
        steps := steps + saveInterval;
        elapsed := elapsed + saveInterval;
        i := i + 1;
      }
      outcome := Integrated;
    }
  }

  // ---------------------------------------------------------------------
  // Conversion to .xyz

  /** The `.xyz` name derived from a trajectory path: the text before its
      first `.`, then `.xyz`. */
  function XyzName(trajFile: string): (r: string)
    ensures |r| >= 4 && r[|r| - 4..] == ".xyz"
    ensures r[..|r| - 4] <= trajFile && '.' !in r[..|r| - 4]
    ensures r[..|r| - 4] == trajFile || trajFile[|r| - 4] == '.'
    ensures '.' !in trajFile ==> r == trajFile + ".xyz"
  {
    FirstField(trajFile, '.') + ".xyz"
  }

  /** Deriving the name again from a derived name changes nothing. */
  lemma XyzNameIdempotent(trajFile: string)
    ensures XyzName(XyzName(trajFile)) == XyzName(trajFile)
  {
    var base := FirstField(trajFile, '.');
    assert base + ".xyz" == base + ['.'] + "xyz";
    FirstFieldOfPrefix(base, '.', "xyz");
  }

  /** What `convert_trajectory` reports; it never raises. */
  datatype Report =
    | NoSuchFile(path: string)
    | AlreadyExists(path: string)
    | Converted(source: string, target: string)

  datatype Conversion<S> = Conversion(report: Report, files: Files<S>)

  /** Copies the frames of `trajFile` to its `.xyz` name, but only when the
      source exists and the target does not. */
  function ConvertTrajectory<S>(files: Files<S>, trajFile: string): (r: Conversion<S>)
    ensures r.report == NoSuchFile(trajFile) <==> trajFile !in files
    ensures r.report.Converted? <==> trajFile in files && XyzName(trajFile) !in files
    ensures r.report.Converted? ==> r.files == files[XyzName(trajFile) := files[trajFile]]
    ensures !r.report.Converted? ==> r.files == files
    ensures trajFile in files && XyzName(trajFile) in files ==> r.report == AlreadyExists(XyzName(trajFile))
    ensures r.report.Converted? ==> r.report == Converted(trajFile, XyzName(trajFile))
  {
    var xyzFile := XyzName(trajFile);
    if trajFile !in files then Conversion(NoSuchFile(trajFile), files)
    else if xyzFile in files then Conversion(AlreadyExists(xyzFile), files)
    else Conversion(Converted(trajFile, xyzFile), files[xyzFile := files[trajFile]])
  }

  /** Conversion never changes or removes a file that already exists. */
  lemma ConvertKeepsExisting<S>(files: Files<S>, trajFile: string, p: string)
    requires p in files
    ensures p in ConvertTrajectory(files, trajFile).files
    ensures ConvertTrajectory(files, trajFile).files[p] == files[p]
  {
  }

  /** A second conversion of the same trajectory writes nothing. */
  lemma ConvertTwice<S>(files: Files<S>, trajFile: string)
    ensures var once := ConvertTrajectory(files, trajFile).files;
      var twice := ConvertTrajectory(once, trajFile);
      !twice.report.Converted? && twice.files == once
  {
  }

  // ---------------------------------------------------------------------
  // Concatenation

  /** `[read(traj, ":-1") for traj in listing]`. */
  function Trimmed<S>(files: Files<S>, listing: seq<string>): (r: seq<seq<S>>)
    requires forall f :: f in listing ==> f in files
    ensures |r| == |listing|
    ensures forall i :: 0 <= i < |listing| ==> r[i] == AllButLast(files[listing[i]])
  {
    if listing == [] then []
    else [AllButLast(files[listing[0]])] + Trimmed(files, listing[1..])
  }

  /** Writes to `folder/filename` every listed trajectory without its last
      frame, one after another in listing order; an existing file there is
      overwritten. */
  function ConcatTrajectories<S>(files: Files<S>, folder: string, listing: seq<string>,
                                 filename: string): (files': Files<S>)
    requires forall f :: f in listing ==> f in files
    ensures files'.Keys == files.Keys + {PathJoin(folder, filename)}
    ensures forall p :: p in files && p != PathJoin(folder, filename) ==> files'[p] == files[p]
    ensures files'[PathJoin(folder, filename)] == Chain(Trimmed(files, listing))
  {
    files[PathJoin(folder, filename) := Chain(Trimmed(files, listing))]
  }

  /** Frames kept from the listed trajectories: `max(len - 1, 0)` each. */
  function KeptFrames<S>(files: Files<S>, listing: seq<string>): nat
    requires forall f :: f in listing ==> f in files
  {
    if listing == [] then 0
    else (if |files[listing[0]]| > 0 then |files[listing[0]]| - 1 else 0)
         + KeptFrames(files, listing[1..])
  }

  /** The concatenated trajectory holds exactly the kept frames. */
  lemma {:induction false} ConcatLength<S>(files: Files<S>, folder: string, listing: seq<string>, filename: string)
    requires forall f :: f in listing ==> f in files
    ensures |ConcatTrajectories(files, folder, listing, filename)[PathJoin(folder, filename)]|
         == KeptFrames(files, listing)
  {
    TrimmedChainLength(files, listing);
  }

  lemma {:induction false} TrimmedChainLength<S>(files: Files<S>, listing: seq<string>)
    requires forall f :: f in listing ==> f in files
    ensures |Chain(Trimmed(files, listing))| == KeptFrames(files, listing)
  {
    if listing != [] {
      var t := Trimmed(files, listing);
      assert t[1..] == Trimmed(files, listing[1..]);
      TrimmedChainLength(files, listing[1..]);
    }
  }

  /** Listing order is kept: concatenating the files of `a + b` is
      concatenating those of `a`, then those of `b`. */
  lemma {:induction false} ConcatInOrder<S>(files: Files<S>, folder: string, a: seq<string>, b: seq<string>, filename: string)
    requires forall f :: f in a + b ==> f in files
    ensures ConcatTrajectories(files, folder, a + b, filename)[PathJoin(folder, filename)]
         == Chain(Trimmed(files, a)) + Chain(Trimmed(files, b))
  {
    TrimmedAppend(files, a, b);
    ChainAppend(Trimmed(files, a), Trimmed(files, b));
  }

  lemma {:induction false} TrimmedAppend<S>(files: Files<S>, a: seq<string>, b: seq<string>)
    requires forall f :: f in a + b ==> f in files
    ensures Trimmed(files, a + b) == Trimmed(files, a) + Trimmed(files, b)
  {
    if a == [] {
      assert a + b == b;
    } else {
      assert (a + b)[0] == a[0];
      assert (a + b)[1..] == a[1..] + b;
      TrimmedAppend(files, a[1..], b);
    }
  }

  /** Two trajectories where the second resumed from the end of the first
      concatenate to one uninterrupted integration, with the duplicated
      restart frame appearing once. */
  lemma ResumedRunsConcatenate<S>(verlet: (real, S) -> S, dt: real, s0: S, interval: nat, c1: nat, c2: nat,
                                  files: Files<S>, folder: string, first: string, second: string, filename: string)
    requires first in files && second in files
    requires files[first] == Frames(verlet, dt, s0, interval, c1)
    requires files[second] == Frames(verlet, dt, Run(verlet, dt, s0, c1 * interval), interval, c2)
    ensures ConcatTrajectories(files, folder, [first, second], filename)[PathJoin(folder, filename)]
         == AllButLast(Frames(verlet, dt, s0, interval, c1 + c2))
  {
    var t := Trimmed(files, [first, second]);
    assert t == [AllButLast(files[first]), AllButLast(files[second])];
    assert Chain(t) == AllButLast(files[first]) + AllButLast(files[second]) by {
      assert t[1..] == [AllButLast(files[second])];
      assert Chain(t[1..][1..]) == [];
      assert Chain(t[1..]) == AllButLast(files[second]) + [];
    }
    FramesResume(verlet, dt, s0, interval, c1, c2);
    AllButLastOfAppend(AllButLast(files[first]), files[second]);
  }
}
