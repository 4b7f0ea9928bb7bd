/**
  The one MathUtils function the core calls. Its implementation is not part
  of this model: callers receive it as a parameter.
*/
module MathUtils {
  import opened Wrappers
  import opened Decimals

  /** MathUtils.gamma: Some(Γ(x)), or None when the call throws. */
  type Gamma = Decimal -> Option<Decimal>
}
