/**
 * The shared vocabulary of the model: every alias of the source is a
 * type-level function whose result is either a value or the empty type
 * `never`.  `never` is assignable to everything, so it passes every
 * `X extends T ? ... : ...` test; the predicates below say so once.
 */
module TypeLevel {

  /** The result of evaluating an alias: `never`, or a proper value. */
  datatype Ty<+T> = Never | Val(value: T)

  /** A lookup that may find nothing (an absent key, an index past the end). */
  datatype Option<+T> = None | Some(value: T)

  /** `X extends true ? ... : ...` succeeds for `true` and for `never`. */
  predicate ExtendsTrue(x: Ty<bool>)
  {
    x.Never? || x.value
  }
}
