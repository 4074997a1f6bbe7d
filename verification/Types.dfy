/** Result shapes shared by every module. */
module Types {

  datatype Option<+T> = None | Some(value: T)

  datatype Result<+T> = Ok(value: T) | Err(error: CodeError)

  datatype CodeErrorCode = Invalid | Forbidden | NeedsCredential | Internal

  datatype CodeError = CodeError(code: CodeErrorCode, message: string)
}
