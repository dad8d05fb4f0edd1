/** The usual Some/None wrapper, used for "no value" results such as
    `findIndex` returning -1 or a key without a recorded status. */
module Optional {

  datatype Option<+T> = None | Some(value: T)

}
