/** The molecular-dynamics engine, seen from outside. The integrator and the
    potential behind it are not part of this model: `verlet(dt, s)` stands
    for one velocity-Verlet step of length `dt` from state `s`, with the
    calculator attached to the atoms, and is left uninterpreted. */
module Dynamics {

  /** The state reached from `s` after `n` integrator steps, which is what
      `dyn.run(n)` leaves in the atoms object. */
  function Run<S>(verlet: (real, S) -> S, dt: real, s: S, n: nat): S
    decreases n
  {
    if n == 0 then s else Run(verlet, dt, verlet(dt, s), n - 1)
  }

  /** The last of `n` steps is taken from the state after the first `n - 1`. */
  lemma {:induction false} RunLast<S>(verlet: (real, S) -> S, dt: real, s: S, n: nat)
    requires n > 0
    ensures Run(verlet, dt, s, n) == verlet(dt, Run(verlet, dt, s, n - 1))
  {
    if n > 1 {
      RunLast(verlet, dt, verlet(dt, s), n - 1);
    }
  }

  /** Running `a` steps and then `b` more is running `a + b` steps: the
      engine keeps no hidden state between two calls of `run`. */
  lemma {:induction false} RunAdd<S>(verlet: (real, S) -> S, dt: real, s: S, a: nat, b: nat)
    ensures Run(verlet, dt, Run(verlet, dt, s, a), b) == Run(verlet, dt, s, a + b)
  {
    if a > 0 {
      RunAdd(verlet, dt, verlet(dt, s), a - 1, b);
    }
  }
}
