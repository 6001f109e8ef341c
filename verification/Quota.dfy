/**
  The four-way quota decision of a key: a total limit, an in limit and an out
  limit, each of which is "unset" when zero, against the bytes used so far.
  All arithmetic is Go's uint64 arithmetic and may wrap.
 */
module Quota {
  import opened Common

  datatype Usage = Usage(inb: Word64, out: Word64)

  datatype ByteLimits = ByteLimits(total: Word64, inb: Word64, out: Word64)

  const NO_USAGE := Usage(0, 0)
  const NO_LIMITS := ByteLimits(0, 0, 0)

  predicate InLimited(l: ByteLimits, u: Usage) {
    if l.inb > 0 then u.inb >= l.inb
    else if l.total <= 0 then false
    else if l.out > 0 then u.inb >= WrapSub(l.total, l.out)
    else WrapAdd(u.inb, u.out) >= l.total
  }

  predicate OutLimited(l: ByteLimits, u: Usage) {
    if l.out > 0 then u.out >= l.out
    else if l.total <= 0 then false
    else if l.inb > 0 then u.out >= WrapSub(l.total, l.inb)
    else WrapAdd(u.inb, u.out) >= l.total
  }

  /** Both directions still have room. */
  predicate Admits(l: ByteLimits, u: Usage) {
    !InLimited(l, u) && !OutLimited(l, u)
  }

  /** The two counters together still fit a uint64. */
  predicate NoWrap(u: Usage) {
    u.inb + u.out < TWO_64
  }

  /**
    What an administrator has to respect so that the total limit is a bound:
    with both partial limits set they may overshoot the total by one byte; with
    one of them set it must not exceed the total, or the subtraction underflows.
   */
  predicate Consistent(l: ByteLimits) {
    if l.inb > 0 && l.out > 0 then l.inb + l.out <= l.total + 1
    else l.inb <= l.total && l.out <= l.total
  }

  /** Every admitted key is strictly below its total limit. */
  ghost predicate TotalIsBound(l: ByteLimits) {
    forall u: Usage :: NoWrap(u) && Admits(l, u) ==> u.inb + u.out < l.total
  }

  /** A usage that a badly chosen triple of limits admits past the total. */
  function Overdraft(l: ByteLimits): Usage
    requires l.total > 0
  {
    if l.inb > 0 && l.out > 0 then
      if l.inb > l.total then Usage(l.total, 0) else Usage(l.inb - 1, l.total - (l.inb - 1))
    else if l.inb > 0 then Usage(l.inb - 1, 0)
    else Usage(0, if l.out > 0 then l.out - 1 else 0)
  }

  /** The total limit bounds the sum of both directions exactly for consistent limits. */
  lemma TotalQuotaExact(l: ByteLimits)
    requires l.total > 0
    ensures TotalIsBound(l) <==> Consistent(l)
  {
    if !Consistent(l) {
      var u := Overdraft(l);
      assert NoWrap(u) && Admits(l, u) && u.inb + u.out >= l.total;
    }
  }

  /**
    The bound in the form an operator would state it, for all four set/unset
    configurations; the subtractions of the partial limits never underflow.
   */
  lemma TotalQuotaBound(l: ByteLimits, u: Usage)
    requires l.total > 0 && l.inb + l.out <= l.total && NoWrap(u)
    ensures Admits(l, u) ==> u.inb + u.out < l.total
    ensures WrapSub(l.total, l.inb) == l.total - l.inb && WrapSub(l.total, l.out) == l.total - l.out
  {
    TotalQuotaExact(l);
  }

  predicate AtLeast(u': Usage, u: Usage) {
    u'.inb >= u.inb && u'.out >= u.out
  }

  /** More traffic never turns a denied key into an admitted one. */
  ghost predicate DenialIsStable(l: ByteLimits) {
    forall u: Usage, u': Usage :: AtLeast(u', u) && Admits(l, u') ==> Admits(l, u)
  }

  /**
    Growing counters keep a denial exactly when the sum of both directions is
    never compared: some partial limit is set, or there is no total limit.
   */
  lemma DenialStableExact(l: ByteLimits)
    ensures DenialIsStable(l) <==> l.total == 0 || l.inb > 0 || l.out > 0
  {
    if l.total > 0 && l.inb == 0 && l.out == 0 {
      var u, u' := Usage(l.total, 0), Usage(TWO_64 - 1, 1);
      assert AtLeast(u', u) && Admits(l, u') && !Admits(l, u);
    }
  }

  /** With a total limit alone, a denial lasts as long as the summed counters do not wrap. */
  lemma DenialStableWithoutWrap(l: ByteLimits, u: Usage, u': Usage)
    requires AtLeast(u', u) && NoWrap(u') && !Admits(l, u)
    ensures !Admits(l, u')
  {
    assert WrapAdd(u.inb, u.out) == u.inb + u.out && WrapAdd(u'.inb, u'.out) == u'.inb + u'.out;
  }
}
