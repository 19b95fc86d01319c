/** How large the cache can get. */
module VerifyCacheSize {
  import opened VerifyCache
  import opened Sizes

  lemma SmallerCache(c: Cache, d: Cache)
    requires c.Keys <= d.Keys
    ensures |c| <= |d|
  {
    SubsetSize(c.Keys, d.Keys);
    assert |c| == |c.Keys| && |d| == |d.Keys|;
  }

  lemma StoredSize(c: Cache, id: string, began: real, a: Answer, v: nat, cap: nat)
    requires |c| <= cap && cap > 0
    ensures |Stored(c, id, began, a, v, cap)| <= cap
  {
    var r := Roomy(c, began, cap);
    assert |r| < cap;
  }

  /** The cache never outgrows its limit. */
  lemma {:induction false} CacheBounded(s: System, steps: seq<Step>, cap: nat)
    requires Shape(s) && |s.cache| <= cap && cap > 0
    ensures |Run(s, steps, cap).cache| <= cap
  {
    if steps != [] {
      var n := |steps| - 1;
      CacheBounded(s, steps[..n], cap);
      StepBounded(Run(s, steps[..n], cap), steps[n], cap);
    }
  }

  lemma StepBounded(s: System, step: Step, cap: nat)
    requires Shape(s) && |s.cache| <= cap && cap > 0
    ensures |Do(s, step, cap).cache| <= cap
  {
    match step
    case Finish(l) =>
      if l in s.lookups && l.read.Some? {
        StoredSize(s.cache, l.id, l.began, l.read.value.0, l.read.value.1, cap);
      }
    case Forget(ids) => SmallerCache(s.cache - ids, s.cache);
    case Housekeep(now) => SmallerCache(s.cache - Expired(s.cache, now), s.cache);
    case _ =>
  }
}
