// The texts of the ConflictException messages the services raise.
module Messages {
  import opened Strings

  /** The two-argument ConflictException constructor as it is written: it
      repeats the field name where the value was meant to go. */
  function FieldInUseAsWritten(field: string, value: string): (m: string)
    ensures Contains(m, field)
  {
    ContainsInfix("", field, " '" + field + "' já está em uso");
    field + " '" + field + "' já está em uso"
  }

  /** The value a caller passes never reaches the message: an email address
      in conflict is not named in the message about it. */
  lemma FieldInUseAsWrittenDropsValue()
    ensures !Contains(FieldInUseAsWritten("email", "ana@mail.com"), "ana@mail.com")
  {
    var m := FieldInUseAsWritten("email", "ana@mail.com");
    ContainsChars(m, "ana@mail.com");
    assert '@' in "ana@mail.com";
    assert '@' !in m;
  }

  /** The message the constructor evidently means: the field, then the
      value that is already in use. The operations raise the message as
      written; this is the corrected text beside it. */
  function FieldInUse(field: string, value: string): (m: string)
    ensures Contains(m, field) && Contains(m, value)
  {
    ContainsInfix("", field, " '" + value + "' já está em uso");
    ContainsInfix(field + " '", value, "' já está em uso");
    field + " '" + value + "' já está em uso"
  }

  /** A message "<username><verb><product name>", naming both. */
  function Between(username: string, verb: string, productName: string): (m: string)
    ensures Contains(m, username) && Contains(m, productName)
  {
    ContainsInfix("", username, verb + productName);
    ContainsInfix(username + verb, productName, "");
    assert username + verb + productName + "" == username + verb + productName;
    username + verb + productName
  }

  /** The conflict of attaching a product the user already has. */
  function AlreadyHas(username: string, productName: string): (m: string)
  {
    Between(username, " já possui ", productName)
  }

  /** The conflict of detaching a product the user does not have. */
  function DoesNotHave(username: string, productName: string): (m: string)
  {
    Between(username, " não possui ", productName)
  }

  /** The conflicts of promoting an admin and of demoting a non-admin. */
  const AlreadyAdmin: string := "User já é ADMIN"
  const NotAdmin: string := "User não é ADMIN"
}
