/** Option for the values that C# represents as a nullable reference, and the
    exceptions that the engine can let escape to its caller. */
module IniBase {

  datatype Option<T> = None | Some(value: T)

  /** The .NET exceptions the engine can raise on some inputs. */
  datatype Exception =
    | IndexOutOfRange   // indexing an empty string
    | NullReference     // calling a method on a null string
    | JsonReader        // Newtonsoft rejecting an escape sequence

  /** A computation that returns a value or throws. */
  datatype Result<T> = Ok(value: T) | Thrown(error: Exception)
}
