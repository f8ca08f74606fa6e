/** The delay between two attempts to upload a batch. */
module RetryDelay {
  import opened Replication
  import opened Powers

  ghost predicate Doubling(s: Replica) {
    s.backoff == BACKOFF_START * Pow2(s.failures) % WORD
  }

  lemma DoublingStep(s: Replica, step: Step)
    requires Doubling(s) && Enabled(s, step)
    ensures Doubling(Apply(s, step))
  {
    if step.Fail? && s.phase.retries < MAX_RETRIES {
      var x := BACKOFF_START * Pow2(s.failures);
      assert BACKOFF_START * Pow2(s.failures + 1) == 2 * x;
      DoubleRemainder(x);
    }
  }

  /** Success and restart set the delay back to one second, a retry doubles it in 64 bits, and nothing else, giving up
      included, changes it. */
  lemma DelayAfter(s: Replica, step: Step)
    requires Enabled(s, step)
    ensures var s' := Apply(s, step);
      && (step.Ack? || step.Restart? ==> s'.backoff == 1000 && s'.failures == 0)
      && (step.Fail? && s'.phase.Sending? ==> s'.backoff == s.backoff * 2 % WORD && s'.failures == s.failures + 1)
      && (!step.Ack? && !step.Restart? && !(step.Fail? && s'.phase.Sending?) ==>
            s'.backoff == s.backoff && s'.failures == s.failures)
  {
  }

  /** In every run the delay doubles on every retry and is reset only by success, in 64-bit arithmetic. */
  lemma {:induction false} BackoffLaw(s: Replica, steps: seq<Step>)
    requires Doubling(s) && CanRun(s, steps)
    ensures Doubling(After(s, steps))
    decreases |steps|
  {
    if steps != [] {
      DoublingStep(s, steps[0]);
      BackoffLaw(Apply(s, steps[0]), steps[1..]);
    }
  }

  lemma DoubleRemainder(x: nat)
    ensures x % WORD * 2 % WORD == 2 * x % WORD
  {
    var q, r := x / WORD, x % WORD;
    assert 2 * x == (if 2 * r < WORD then 2 * q * WORD + 2 * r else (2 * q + 1) * WORD + (2 * r - WORD));
  }

  /** So it is exponential for exactly the first 54 retries in a row, and vanishes from the 61st on. */
  lemma BackoffIsExponentialUpTo54(n: nat)
    ensures BACKOFF_START * Pow2(n) % WORD == BACKOFF_START * Pow2(n) <==> n <= 54
    ensures n >= 61 ==> BACKOFF_START * Pow2(n) % WORD == 0
  {
    Pow2Values();
    if n <= 54 {
      Pow2Monotone(n, 54);
    } else {
      Pow2Monotone(55, n);
    }
    SmallIsItsRemainder(BACKOFF_START * Pow2(n));
    if n >= 61 {
      VanishesFrom61(n);
    }
  }

  lemma VanishesFrom61(n: nat)
    requires n >= 61
    ensures BACKOFF_START * Pow2(n) % WORD == 0
  {
    Pow2Values();
    Pow2Add(n - 61, 61);
    var k := Pow2(n - 61);
    assert BACKOFF_START * Pow2(n) == k * 125 * WORD;
    WholeWords(k * 125);
  }

  lemma SmallIsItsRemainder(x: nat)
    ensures x % WORD == x <==> x < WORD
  {
  }

  lemma WholeWords(k: nat)
    ensures k * WORD % WORD == 0
  {
  }
}
