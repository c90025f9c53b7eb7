/** Result types shared by the modules. */
module Wrappers {

  datatype Option<+T> = None | Some(value: T)

  /** `Err` stands for any Go error: the text of an error message is not modelled. */
  datatype Result<+T> = Ok(value: T) | Err
}
