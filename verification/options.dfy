/** The Some/None datatype used wherever the JavaScript code can observe
    `null` or `undefined`, or where an operation can throw. */
module Options {

  datatype Option<+T> = None | Some(value: T)
}
