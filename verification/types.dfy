/** Value types shared by the panels (the records of types.ts and the outcome of a backend call). */
module Types {

  datatype Option<T> = None | Some(value: T)

  /** What an awaited backend call yields: its value, or the message of the error it threw. */
  datatype Outcome<T> = Ok(value: T) | Err(message: string)

  datatype Role = User | Model

  /** One entry of the chat transcript. */
  datatype ChatMessage = ChatMessage(role: Role, text: string)

  /** The verdict the validator service returns for one word. */
  datatype WordValidationResult = WordValidationResult(isValid: bool, definition: string)

  datatype Theme = Light | Dark
}
