/** A value that may be absent. In this model `None` stands for JavaScript's
    `undefined`: an array read past its end, a failed `find`, a `pop` of an
    empty array, or a handler that threw before finishing. */
module Optional {

  datatype Option<+T> = None | Some(value: T)

}
