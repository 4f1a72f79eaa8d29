/** The trees that the round trips range over. */
module Vocabularies {
  import opened CStrings
  import opened JsonTrees
  import opened Comparing

  /** JSON proper with keys from the vocabulary, distinct within each object. */
  ghost predicate Fits(j: Json, keys: iset<Str>, cs: bool)
    decreases j
  {
    match j
    case Invalid => false
    case Raw(_) => false
    case Array(es) => forall e | e in es :: Fits(e, keys, cs)
    case Object(ms, _) => DistinctKeys(ms, cs) && forall m | m in ms :: m.key in keys && Fits(m.value, keys, cs)
    case _ => true
  }

  lemma {:induction false} FitsIsStandard(j: Json, keys: iset<Str>, cs: bool)
    requires Fits(j, keys, cs)
    ensures Standard(j) && Unique(j, cs)
    decreases j
  {
    match j
    case Array(es) =>
      forall e | e in es ensures Standard(e) && Unique(e, cs) { FitsIsStandard(e, keys, cs); }
    case Object(ms, _) =>
      forall m | m in ms ensures Standard(m.value) && Unique(m.value, cs) { FitsIsStandard(m.value, keys, cs); }
    case _ =>
  }
}
