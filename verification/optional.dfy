/** The optional-value datatype shared by the model: a lookup that may miss,
    a parse that may be rejected, a decryption that may fail. */
module Optional {

  datatype Option<+T> = None | Some(value: T)

}
