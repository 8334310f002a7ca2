/** The optional value the resolvers and the cache return in place of `null`. */
module Wrappers {

  datatype Option<+T> = None | Some(value: T)
}
