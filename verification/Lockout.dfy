/** Login attempts per email: the failure counter and the lockout timer. */
module Lockout {

  const MAX_FAILED_ATTEMPTS := 5
  const LOCKOUT_DURATION := 15 * 60 * 1_000_000_000

  /** Nanoseconds. */
  type Time = int

  /** The two maps that the mutex guards. */
  datatype Guard = Guard(failed: map<string, nat>, lockouts: map<string, Time>)

  function Failures(g: Guard, email: string): nat { if email in g.failed then g.failed[email] else 0 }

  /** Does the gate refuse a login now? */
  predicate Locked(g: Guard, email: string, now: Time) { email in g.lockouts && now < g.lockouts[email] }

  /** First critical section of a login that is not refused: an expired lockout is forgotten. */
  function PassGate(g: Guard, email: string): Guard {
    if email in g.lockouts then Guard(g.failed - {email}, g.lockouts - {email}) else g
  }

  function CountFailure(g: Guard, email: string, now: Time): Guard {
    var count := Failures(g, email) + 1;
    Guard(g.failed[email := count],
          if count >= MAX_FAILED_ATTEMPTS then g.lockouts[email := now + LOCKOUT_DURATION] else g.lockouts)
  }

  function ClearFailures(g: Guard, email: string): Guard { g.(failed := g.failed - {email}) }

  datatype Outcome = Refused | Rejected | Accepted

  class AuthService {
    var failedAttempts: map<string, nat>
    var lockouts: map<string, Time>

    ghost function View(): Guard
      reads this
    {
      Guard(failedAttempts, lockouts)
    }

    constructor ()
      ensures View() == Guard(map[], map[])
    {
      failedAttempts := map[];
      lockouts := map[];
    }

    method CheckGate(email: string, now: Time) returns (locked: bool)
      modifies this
      ensures locked == Locked(old(View()), email, now)
      ensures View() == if locked then old(View()) else PassGate(old(View()), email)
    {
      if email in lockouts {
        if now < lockouts[email] { return true; }
        lockouts := lockouts - {email};
        failedAttempts := failedAttempts - {email};
      }
      return false;
    }

    method IncrementFailure(email: string, now: Time)
      modifies this
      ensures View() == CountFailure(old(View()), email, now)
    {
      var count := if email in failedAttempts then failedAttempts[email] + 1 else 1;
      failedAttempts := failedAttempts[email := count];
      if failedAttempts[email] >= MAX_FAILED_ATTEMPTS {
        lockouts := lockouts[email := now + LOCKOUT_DURATION];
      }
    }

    method ClearOnSuccess(email: string)
      modifies this
      ensures View() == ClearFailures(old(View()), email)
    {
      failedAttempts := failedAttempts - {email};
    }

    /** A whole login with nobody else in between: `gateAt` and `doneAt` are the two clock readings. */
    method Login(email: string, userFound: bool, passwordMatches: bool, gateAt: Time, doneAt: Time) returns (r: Outcome)
      requires gateAt <= doneAt
      modifies this
      ensures r.Refused? <==> Locked(old(View()), email, gateAt)
      ensures r.Accepted? <==> !r.Refused? && userFound && passwordMatches
      ensures View() == match r
                        case Refused => old(View())
                        case Rejected => CountFailure(PassGate(old(View()), email), email, doneAt)
                        case Accepted => ClearFailures(PassGate(old(View()), email), email)
    {
      var locked := CheckGate(email, gateAt);
      if locked { return Refused; }
      if !userFound {
        IncrementFailure(email, doneAt);
        return Rejected;
      }
      if !passwordMatches {
        IncrementFailure(email, doneAt);
        return Rejected;
      }
      ClearOnSuccess(email);
      return Accepted;
    }
  }
}
