/** The optional value used wherever the page's DOM may lack something. */
module Optional {
  datatype Option<T> = None | Some(value: T)
}
