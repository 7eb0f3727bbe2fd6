/** A value that may be absent: the model's stand-in for an out-parameter
    that is meaningful only when the call reports success, and for a
    cursor that may still be unbound. */
module Optional {

  datatype Option<+T> = None | Some(value: T)

}
