/** Message records shared by the console assistant and the web chat page.
    Both keep a conversation as an ordered list of {"role", "content"} dictionaries. */
module Chat {

  /** The three roles the chat endpoint understands. */
  datatype Role = System | User | Assistant

  /** One entry of a conversation history; never changed once appended. */
  datatype Message = Message(role: Role, content: string)

  /** A value that may be absent (Python's `None`). */
  datatype Option<T> = None | Some(value: T)
}
