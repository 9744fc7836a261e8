# Trajectory bookkeeping of `CreateTrajectory`, in Dafny

This project models the trajectory tools of the MD/ML-potential repository:
class `CreateTrajectory` in `tools/create_traj.py`. The class does three
things:

- `integrate_atoms` advances an atoms object with velocity-Verlet dynamics.
  It writes a new trajectory file: the initial state, then one snapshot
  every `save_interval` steps. It keeps a step counter on the instance.
- `convert_trajectory` copies a trajectory to an `.xyz` file whose name is
  derived from the source path.
- `concat_trajectories` joins the trajectories of a folder. It drops each
  file's last frame, which duplicates the next run's restart frame.

Modelling choices:

- The filesystem is a value, `Files<S> = map<string, seq<S>>`, from path to
  the frames the file holds. A frame is a snapshot of the atoms' state, of
  an arbitrary type `S`. Each operation takes the filesystem and returns
  the new one.
- The MD engine is the function parameter `verlet(dt, s)`, one integrator
  step. `Dynamics.Run` applies it `n` times, which is what `dyn.run(n)`
  does to the atoms.
- The atoms object is the class `Atoms`, which the integration advances in
  place. `CreateTrajectory` is a class with the field `steps` and the
  constant `timestep`.
- Python's `//`, `str.split(".")[0]`, `os.path.join`, the slice `[:-1]` and
  `itertools.chain` are written out in module `Builtins`.

Files: `builtins.dfy` (module `Builtins`), `dynamics.dfy` (module
`Dynamics`), `create_traj.dfy` (module `CreateTraj`).

Edge cases the model keeps from the source:

- An existing trajectory path fails the assertion before anything is opened
  or advanced (`TrajectoryExists`).
- `save_interval == 0` fails only after the file has been created and the
  initial frame written. The floor division raises then. The model returns
  `ZeroSaveInterval` with that one-frame file in place.
- A negative `save_interval` makes `n_steps // save_interval` zero or
  negative under Python's floor division. The file then holds only the
  initial frame, and the counter is unchanged.
- Remainder steps below one full interval are not run and not counted.
- The `.xyz` name is the text before the FIRST `.` of the whole path, then
  `.xyz`. So `a.b.traj` becomes `a.xyz` and `../run/a.traj` becomes `.xyz`.
  A source named `x.xyz` derives its own name, and conversion reports that
  it already exists.
- Concatenation writes its output without an existence check. It may
  overwrite any file, one of its own inputs included.

## Model

| member | source | states |
|---|---|---|
| `Builtins.FloorDiv` | tools/create_traj.py:25 | `n_steps // save_interval` is the floor quotient for either sign of the divisor; it is non-negative for a positive divisor and non-positive for a negative one when `n_steps >= 0` |
| `Builtins.FirstField` | tools/create_traj.py:35 | `split(".")[0]` is the longest dot-free prefix: it holds no `.`, is a prefix of the path, and is the whole path or is followed by a `.` |
| `Builtins.PathJoin` | tools/create_traj.py:49 | `os.path.join(folder, filename)`: an absolute `filename` replaces the folder; otherwise the result is the folder, then one `/` exactly when the folder is non-empty and does not already end in `/`, then `filename` |
| `Builtins.AllButLast` | tools/create_traj.py:47 | `read(traj, ":-1")` keeps the prefix of length `max(len - 1, 0)` |
| `Builtins.Chain` | tools/create_traj.py:48 | `list(itertools.chain.from_iterable(trajs))` starts with the first trajectory and holds as many frames as all the trajectories together |
| `Builtins.ChainAppend` | tools/create_traj.py:48 | `itertools.chain` over `a + b` is the chain of `a` followed by the chain of `b` |
| `Dynamics.Run` | tools/create_traj.py:24-27 | the state `dyn.run(n)` leaves in the atoms: the one-step map `verlet(timestep, ·)` applied `n` times |
| `Dynamics.RunLast` | tools/create_traj.py:27 | the last of `n` steps is one step from the state after the first `n - 1` |
| `Dynamics.RunAdd` | tools/create_traj.py:26-27 | `dyn.run(a)` followed by `dyn.run(b)` leaves the atoms where `a + b` steps would |
| `CreateTraj.Frames` | tools/create_traj.py:21-30 | the trajectory written by an integration with `count` save intervals holds `count + 1` frames, and its first frame is the state before any step |
| `CreateTraj.FrameAt` | tools/create_traj.py:24-30 | frame `k` is the initial state advanced by `k * save_interval` steps |
| `CreateTraj.ConsecutiveFrames` | tools/create_traj.py:26-30 | consecutive frames are exactly `save_interval` integrator steps apart |
| `CreateTraj.FramesResume` | tools/create_traj.py:19-30 | a run of `c1` intervals, with its last frame dropped, followed by a run resumed from that frame for `c2` intervals, is a single run of `c1 + c2` intervals |
| `CreateTraj.Intervals` | tools/create_traj.py:25-26 | the loop runs `max(n_steps // save_interval, 0)` times; it runs only for a positive interval, and then covers `n_steps` to within one interval |
| `CreateTraj.StepsTaken` | tools/create_traj.py:25-31 | one call advances the counter by at most `n_steps`, less than one interval short of it, by a multiple of the interval, and by nothing for a negative interval |
| `CreateTraj.CreateTrajectory.constructor` | tools/create_traj.py:10-12 | a new instance starts with `steps == 0` and keeps the given time step, 1.0 by default |
| `CreateTraj.CreateTrajectory.IntegrateAtoms` | tools/create_traj.py:14-32 | an existing `traj_file` is refused with nothing changed. Interval 0 leaves a one-frame file and fails. Otherwise only `traj_file` is created, holding `Frames` of `n_steps // save_interval` intervals. The atoms end `StepsTaken` steps further on, and `steps` grows by `StepsTaken`, so it accumulates across calls |
| `CreateTraj.XyzName` | tools/create_traj.py:35 | the derived name is the text before the first `.` of the path (a dot-free prefix that is the whole path or is followed by a `.`), then `.xyz`; a path with no dot simply gets `.xyz` appended |
| `CreateTraj.XyzNameIdempotent` | tools/create_traj.py:35 | deriving the name from a derived name gives the same name |
| `CreateTraj.ConvertTrajectory` | tools/create_traj.py:34-43 | reports `NoSuchFile(traj_file)` exactly when the source is missing, `AlreadyExists(xyz)` when the source exists and the target does too, and otherwise `Converted(traj_file, xyz)` having written the target with all source frames in order; it writes exactly when the source exists and the target does not |
| `CreateTraj.ConvertKeepsExisting` | tools/create_traj.py:36-43 | conversion never changes or removes a file that exists |
| `CreateTraj.ConvertTwice` | tools/create_traj.py:36-43 | a second conversion of the same trajectory writes nothing |
| `CreateTraj.Trimmed` | tools/create_traj.py:47 | the list comprehension has one entry per listed file, each that file without its last frame |
| `CreateTraj.ConcatTrajectories` | tools/create_traj.py:45-51 | only `folder/filename` is written, with no existence check; it holds the chained trimmed trajectories; every other file is unchanged |
| `CreateTraj.ConcatLength` | tools/create_traj.py:47-48 | the output holds the sum over the listed files of `max(len - 1, 0)` frames |
| `CreateTraj.ConcatInOrder` | tools/create_traj.py:46-48 | the output follows listing order: files of `a + b` give the frames of `a`, then those of `b` |
| `CreateTraj.ResumedRunsConcatenate` | tools/create_traj.py:45-51 | two trajectories, the second resumed from the end of the first, concatenate to one uninterrupted run with the restart frame once |

## Left out

- The physics: `VelocityVerlet`, the attached calculator, `get_total_energy`, `get_forces` and the float time step in femtoseconds. One integrator step is the uninterpreted parameter `verlet`. The energy and forces are computed only for the progress lines, so a frame is the atoms' state and nothing more.
- The progress `print` lines, which are logging only. Their "reported, not raised" outcomes of conversion are kept as `Report` values.
- `glob` and its ordering, and the `.traj` and `.xyz` on-disk formats. The folder listing is an input sequence of paths present in the filesystem, and every file is a sequence of frames.
- CreateTraj.CreateTrajectory.IntegrateAtoms: `n_steps` is a `nat`. With a negative `n_steps` and a negative interval the loop would call the integrator with a negative step count, and what it does then is not modelled.
- An exception inside the integrator part way through a run, which would leave a partial trajectory, is not modelled.
- `tools/build_atoms.py`, the driver scripts `stillinger-weber/main.py`, `symmetry-functions/main.py`, `scaling/main.py`, and `stillinger-weber/threebody.py` are not part of this model. They are lattice construction, velocity sampling, fitting and plotting delegated to scientific libraries. The drivers call a `create_trajectory.TrajectoryBuilder` module that is not part of this model either. Its `steps=` and `convert=` arguments and its returned tuple are not those of `CreateTrajectory`, which is what is modelled here.
