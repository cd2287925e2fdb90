/** The C programs' repeat-until-stable capture of the wall clock.

  Each attempt reads `time(NULL)`, breaks it down with `localtime_r`, fills the
  register frame, and reads `time(NULL)` again; the attempt is kept only when
  both readings agree, so the frame never straddles a seconds boundary.  The
  source loops without bound; the model takes the successive readings as a
  finite sequence and reports when they never settle.
 */
module Snapshot {
  import opened Calendar

  /** The outcome of the retry loop over a finite run of readings. */
  datatype Capture<F> =
    | Captured(frame: F, retries: nat)
    | Unsettled

  /** Attempt k reads `ts[2k]` first and `ts[2k + 1]` after filling the frame;
      it is kept when the two agree. */
  predicate Stable(ts: seq<int>, k: nat)
  {
    2 * k + 1 < |ts| && ts[2 * k] == ts[2 * k + 1]
  }

  /** Attempt k is the first one kept. */
  predicate FirstStable(ts: seq<int>, k: nat)
  {
    Stable(ts, k) && forall j :: 0 <= j < k ==> !Stable(ts, j)
  }

  /** The do-while loop of `set_current_date`, for a frame built by `build`
      from the broken-down time.  The frame is the one of the first attempt whose
      two readings agree; every earlier attempt was torn and discarded, so a
      frame whose readings differ is never returned. */
  function StableCapture<F>(ts: seq<int>, local: int -> Tm, build: Tm -> F): (c: Capture<F>)
    decreases |ts|
    ensures c.Captured? ==> FirstStable(ts, c.retries) && c.frame == build(local(ts[2 * c.retries]))
    ensures c.Unsettled? <==> forall j: nat :: !Stable(ts, j)
  {
    if |ts| < 2 then Unsettled
    else if ts[0] == ts[1] then Captured(build(local(ts[0])), 0)
    else
      var rest := ts[2..];
      assert forall j: nat :: Stable(rest, j) <==> Stable(ts, j + 1);
      match StableCapture(rest, local, build)
      case Unsettled =>
        assert forall j: nat :: !Stable(ts, j) by {
          forall j: nat ensures !Stable(ts, j) {
            if j > 0 {
              assert !Stable(rest, j - 1);
            }
          }
        }
        Unsettled
      case Captured(f, k) =>
        assert forall j :: 0 <= j < k + 1 ==> !Stable(ts, j) by {
          forall j | 0 <= j < k + 1 ensures !Stable(ts, j) {
            if j > 0 {
              assert !Stable(rest, j - 1);
            }
          }
        }
        Captured(f, k + 1)
  }

  /** At most one attempt is the first one kept. */
  lemma FirstStableUnique(ts: seq<int>, j: nat, k: nat)
    requires FirstStable(ts, j) && Stable(ts, k)
    ensures j <= k
    ensures FirstStable(ts, k) ==> j == k
  {
  }

  /** A clock that ticks during the first attempt and then holds still forces
      exactly one retry. */
  lemma OneRetry<F>(t: int, local: int -> Tm, build: Tm -> F)
    ensures StableCapture([t, t + 1, t + 1, t + 1], local, build) == Captured(build(local(t + 1)), 1)
  {
    var ts := [t, t + 1, t + 1, t + 1];
    assert ts[2..] == [t + 1, t + 1];
  }
}
