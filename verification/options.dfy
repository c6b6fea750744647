/** The JavaScript `null`/`undefined` of the widget's state, as an explicit option. */
module Options {

  datatype Option<+T> = None | Some(value: T)
}
