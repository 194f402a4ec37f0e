/** Timed preprocessing stages (`TimedFunction`) and the registry the loop
    keeps of them: each tick drops the expired stages and folds the
    survivors over the frame in list order; new stages go at the end. */
module Overlays {

  /** A wall-clock instant in microseconds, the resolution of the
      timestamps the loop compares. */
  type Instant = int

  /** One second, in the unit of `Instant`. */
  const Second: int := 1_000_000

  /** How long the "Screenshot saved at" caption stays on screen. */
  const ScreenshotMessageLifetime: int := 3 * Second

  /** A frame transform together with its bound arguments and the last
      instant at which it is still applied. */
  datatype TimedFunction<!F, !A> = TimedFunction(transform: (F, A) -> F, args: A, expiresAt: Instant)

  /** Calling a stage runs its transform on the frame and its bound arguments. */
  function Apply<F, A>(stage: TimedFunction<F, A>, frame: F): F {
    stage.transform(frame, stage.args)
  }

  /** A stage expires strictly after its expiry instant. */
  predicate Expired<F, A>(stage: TimedFunction<F, A>, now: Instant) {
    now > stage.expiresAt
  }

  /** `sub` is `s` with some elements left out and the rest in their
      original order. */
  ghost predicate IsSubsequence<T>(sub: seq<T>, s: seq<T>)
    decreases |s|
  {
    if |sub| == 0 then true
    else if |s| == 0 then false
    else if sub[0] == s[0] then IsSubsequence(sub[1..], s[1..])
    else IsSubsequence(sub, s[1..])
  }

  /** The list comprehension that keeps the stages that have not expired. */
  function Prune<F, A>(stages: seq<TimedFunction<F, A>>, now: Instant): (r: seq<TimedFunction<F, A>>)
    ensures |r| <= |stages|
    ensures forall i :: 0 <= i < |r| ==> !Expired(r[i], now)
    ensures forall i :: 0 <= i < |stages| && !Expired(stages[i], now) ==> stages[i] in r
    ensures IsSubsequence(r, stages)
  {
    if |stages| == 0 then []
    else
      var rest := Prune(stages[1..], now);
      if Expired(stages[0], now) then rest else [stages[0]] + rest
  }

  /** The `for stage in preprocess_stages` loop: a left fold, first stage first. */
  function ApplyStages<F, A>(stages: seq<TimedFunction<F, A>>, frame: F): F
  {
    if |stages| == 0 then frame else ApplyStages(stages[1..], Apply(stages[0], frame))
  }

  /** The overlay registered when a screenshot is saved: it paints the saved
      file's path and lives for three seconds from the registration instant. */
  function ScreenshotOverlay<F>(paint: (F, string) -> F, path: string, now: Instant): TimedFunction<F, string>
  {
    TimedFunction(paint, path, now + ScreenshotMessageLifetime)
  }

  /** Pruning keeps every occurrence of an unexpired stage and no occurrence
      of an expired one: the survivors count exactly as often as before. */
  lemma {:induction false} PruneCounts<F, A>(stages: seq<TimedFunction<F, A>>, now: Instant, stage: TimedFunction<F, A>)
    ensures multiset(Prune(stages, now))[stage] == if Expired(stage, now) then 0 else multiset(stages)[stage]
  {
    if |stages| > 0 {
      PruneCounts(stages[1..], now, stage);
      assert stages == [stages[0]] + stages[1..];
      assert multiset(stages) == multiset([stages[0]]) + multiset(stages[1..]);
      if !Expired(stages[0], now) {
        var rest := Prune(stages[1..], now);
        assert multiset([stages[0]] + rest) == multiset([stages[0]]) + multiset(rest);
      }
    }
  }

  /** Pruning works element by element, so it distributes over concatenation. */
  lemma {:induction false} PruneAppend<F, A>(a: seq<TimedFunction<F, A>>, b: seq<TimedFunction<F, A>>, now: Instant)
    ensures Prune(a + b, now) == Prune(a, now) + Prune(b, now)
  {
    if |a| > 0 {
      assert (a + b)[1..] == a[1..] + b;
      PruneAppend(a[1..], b, now);
    } else {
      assert a + b == b;
    }
  }

  /** A registry with nothing expired is left as it is. */
  lemma {:induction false} PruneKeepsUnexpired<F, A>(stages: seq<TimedFunction<F, A>>, now: Instant)
    requires forall i :: 0 <= i < |stages| ==> !Expired(stages[i], now)
    ensures Prune(stages, now) == stages
  {
    if |stages| > 0 {
      PruneKeepsUnexpired(stages[1..], now);
    }
  }

  /** Pruning at an instant and again at a later one is the same as pruning
      once at the later one; in particular pruning is idempotent. */
  lemma {:induction false} PruneLater<F, A>(stages: seq<TimedFunction<F, A>>, earlier: Instant, later: Instant)
    requires earlier <= later
    ensures Prune(Prune(stages, earlier), later) == Prune(stages, later)
  {
    if |stages| > 0 {
      PruneLater(stages[1..], earlier, later);
      if !Expired(stages[0], earlier) {
        assert ([stages[0]] + Prune(stages[1..], earlier))[1..] == Prune(stages[1..], earlier);
      }
    }
  }

  /** Folding a concatenation folds the first part, then the second. */
  lemma {:induction false} ApplyStagesAppend<F, A>(a: seq<TimedFunction<F, A>>, b: seq<TimedFunction<F, A>>, frame: F)
    ensures ApplyStages(a + b, frame) == ApplyStages(b, ApplyStages(a, frame))
  {
    if |a| > 0 {
      assert (a + b)[1..] == a[1..] + b;
      ApplyStagesAppend(a[1..], b, Apply(a[0], frame));
    } else {
      assert a + b == b;
    }
  }

  /** The newest stage is applied last, over the output of all older ones. */
  lemma ApplyStagesLast<F, A>(stages: seq<TimedFunction<F, A>>, stage: TimedFunction<F, A>, frame: F)
    ensures ApplyStages(stages + [stage], frame) == Apply(stage, ApplyStages(stages, frame))
  {
    ApplyStagesAppend(stages, [stage], frame);
  }

  /** A screenshot caption registered at `registered` is painted last on
      every frame processed up to and including `registered` plus three
      seconds, and on no frame after that. */
  lemma ScreenshotOverlayLifetime<F>(stages: seq<TimedFunction<F, string>>, paint: (F, string) -> F,
                                     path: string, registered: Instant, now: Instant, frame: F)
    ensures now <= registered + ScreenshotMessageLifetime ==>
      ApplyStages(Prune(stages + [ScreenshotOverlay(paint, path, registered)], now), frame)
      == paint(ApplyStages(Prune(stages, now), frame), path)
    ensures now > registered + ScreenshotMessageLifetime ==>
      ApplyStages(Prune(stages + [ScreenshotOverlay(paint, path, registered)], now), frame)
      == ApplyStages(Prune(stages, now), frame)
  {
    var overlay := ScreenshotOverlay(paint, path, registered);
    PruneAppend(stages, [overlay], now);
    assert [overlay][1..] == [];
    if now <= registered + ScreenshotMessageLifetime {
      assert Prune([overlay], now) == [overlay] + Prune([], now);
      assert Prune([overlay], now) == [overlay];
      ApplyStagesLast(Prune(stages, now), overlay, frame);
      assert Apply(overlay, ApplyStages(Prune(stages, now), frame)) == paint(ApplyStages(Prune(stages, now), frame), path);
    } else {
      assert Prune(stages, now) + [] == Prune(stages, now);
    }
  }
}
