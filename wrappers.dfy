/** The "no value" sentinel of the source: a noisy reading that may be
    missing, or an arg-max that may have no key. */
module Wrappers {

  datatype Option<+T> = None | Some(value: T)
}
