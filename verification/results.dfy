/** Failure-carrying values shared by the whole model: `Option` for the C#
    nullable returns (`User?`, `FirstOrDefault`, `FindFirst`) and `Result` for
    operations of the database that can refuse a write. */
module Results {

  datatype Option<+T> = None | Some(value: T)

  datatype Result<+T, +E> = Ok(value: T) | Err(error: E)
}
