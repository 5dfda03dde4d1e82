/** What several modules share. */
module Common {

  const U32 := 0x1_0000_0000

  datatype Option<+T> = None | Some(value: T)
}
