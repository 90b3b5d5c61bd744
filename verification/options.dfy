/** Optional values, standing in for JavaScript's `undefined`/falsy results. */
module Options {

  datatype Option<+T> = None | Some(value: T)
}
