/** A chat message as the service receives it: a dictionary whose
    `user_name`, `message` and `timestamp` keys may each be missing. */
module Messages {
  import opened Wrappers

  /** `None` in a field means the key is absent from the dictionary. */
  datatype Message = Message(userName: Option<string>, text: Option<string>, timestamp: Option<string>)
}
