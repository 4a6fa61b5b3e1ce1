/**
 * What the two handler post-processors do with a bean once it has been found
 * eligible: the AOP machinery itself is outside this model, only the
 * three-way outcome is kept.
 */
module BeanPostProcessing {

  /**
   * The bean handed back: the bean itself untouched, the bean itself with the
   * advisor added to its existing proxy, or a new proxy around it.
   */
  datatype Advice = AsIs | AdvisorAdded | NewProxy

  /**
   * `eligible` is the post-processor's own test on the bean; `canApply` is
   * whether the `handleMessage` pointcut applies to the bean's class, and
   * `advised` whether the bean already is a proxy.
   */
  function Advise(eligible: bool, canApply: bool, advised: bool): (a: Advice)
    ensures a == AsIs <==> !eligible || !canApply
    ensures a == AdvisorAdded <==> eligible && canApply && advised
    ensures a == NewProxy <==> eligible && canApply && !advised
  {
    if !eligible then AsIs
    else if canApply then (if advised then AdvisorAdded else NewProxy)
    else AsIs
  }
}
