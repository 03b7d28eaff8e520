/**
 * The command handlers of bot.py. Each receives the tokenized command line,
 * whose first token is the command itself, and answers with a message. The
 * source reads a global `book` that it never defines; here the book is an
 * explicit argument.
 */
module Handlers {
  import opened Wrappers
  import opened Exceptions
  import Fields
  import opened Records
  import opened Book

  const ADD_BIRTHDAY_USAGE := "Invalid command usage: add_birthday <name> <birthday>"
  const SHOW_BIRTHDAY_USAGE := "Invalid command usage: show_birthday <name>"

  function BirthdayAdded(name: string): string {
    "Birthday added for " + name
  }

  function ContactNotFound(name: string): string {
    "Contact " + name + " not found"
  }

  function BirthdayOf(name: string, birthday: string): string {
    "Birthday for " + name + ": " + birthday
  }

  function NoBirthday(name: string): string {
    "Contact " + name + " does not have a birthday or not found"
  }

  /**
   * `show_birthday_handler`: with exactly two tokens, the birthday of the
   * named contact when the contact exists and has one, and otherwise a single
   * message for both the missing contact and the missing birthday.
   */
  function ShowBirthdayHandler(book: AddressBook, args: seq<string>): (r: string)
    reads book, book.data.Values
    ensures |args| != 2 ==> r == SHOW_BIRTHDAY_USAGE
    ensures |args| == 2 ==>
      (r == NoBirthday(args[1]) <==> args[1] !in book.data || book.data[args[1]].birthday.None?)
    ensures |args| == 2 && args[1] in book.data && book.data[args[1]].birthday.Some? ==>
      r == BirthdayOf(args[1], book.data[args[1]].birthday.value)
  {
    if |args| != 2 then SHOW_BIRTHDAY_USAGE
    else
      var name := args[1];
      match book.Find(name)
      case Some(contact) =>
        if contact.birthday.Some? then
          assert BirthdayOf(name, contact.birthday.value)[0] != NoBirthday(name)[0];
          BirthdayOf(name, contact.birthday.value)
        else NoBirthday(name)
      case None => NoBirthday(name)
  }

  /**
   * `add_birthday_handler`: with exactly three tokens and a known contact,
   * sets that contact's birthday (an invalid date raises ValueError, which the
   * handler does not catch) and confirms; a wrong token count or an unknown
   * contact is reported in the message and changes nothing. Only the named
   * contact's record changes, and with it every key that shares that record.
   */
  method AddBirthdayHandler(book: AddressBook, args: seq<string>) returns (r: Result<string, Error>)
    modifies book.data.Values
    ensures |args| != 3 ==> r == Success(ADD_BIRTHDAY_USAGE)
    ensures |args| == 3 && args[1] !in book.data ==> r == Success(ContactNotFound(args[1]))
    ensures |args| == 3 && args[1] in book.data ==>
      var contact := book.data[args[1]];
      && contact.phones == old(contact.phones)
      && (if Fields.ValidBirthday(args[2])
          then r == Success(BirthdayAdded(args[1])) && contact.birthday == Some(args[2])
          else r == Failure(ValueError(Fields.INVALID_BIRTHDAY_MESSAGE)) && contact.birthday == old(contact.birthday))
    ensures forall k :: k in book.data && (|args| != 3 || args[1] !in book.data || book.data[k] != book.data[args[1]]) ==>
      unchanged(book.data[k])
    ensures book.Valid() ==> forall k :: k in book.data && (|args| != 3 || k != args[1]) ==> unchanged(book.data[k])
    ensures |args| == 3 && r == Success(BirthdayAdded(args[1])) ==>
      ShowBirthdayHandler(book, ["show_birthday", args[1]]) == BirthdayOf(args[1], args[2])
  {
    if |args| != 3 {
      return Success(ADD_BIRTHDAY_USAGE);
    }
    var name, date := args[1], args[2];
    match book.Find(name)
    case None =>
      return Success(ContactNotFound(name));
    case Some(contact) =>
      var added := contact.AddBirthday(date);
      if added.Fail? {
        return Failure(added.error);
      }
      return Success(BirthdayAdded(name));
  }

  /**
   * One contact, John: two valid phones are appended and a five-digit one is
   * refused; the first phone is edited, the second found, and removing a
   * number that is not in the list changes nothing.
   */
  method PhoneSession()
  {
    var john := new Record("John");
    var ok := john.AddPhone("1234567890");
    assert Fields.ValidPhone("1234567890");
    ok := john.AddPhone("5555555555");
    assert Fields.ValidPhone("5555555555");
    assert john.phones == ["1234567890", "5555555555"];
    ok := john.AddPhone("12345");
    assert ok.Fail? && |john.phones| == 2;

    john.EditPhone("1234567890", "1112223333");
    assert john.phones == ["1112223333", "5555555555"];
    assert john.FindPhone("5555555555") == Some("5555555555");
    john.RemovePhone("0000000000");
    assert john.phones == ["1112223333", "5555555555"];
  }

  /**
   * Two contacts without phones, John and Jane, are filed; Jane is deleted and
   * deleting her again raises KeyError; John's birthday is then set to the
   * leap day 29.02.2024 through the handler and shown back.
   */
  method BookSession()
  {
    var book := new AddressBook();
    var john := new Record("John");
    book.AddRecord(john);
    var jane := new Record("Jane");
    book.AddRecord(jane);
    assert book.Find("John") == Some(john);

    var deleted := book.Delete("Jane");
    assert deleted == Pass && book.Find("Jane") == None;
    deleted := book.Delete("Jane");
    assert deleted == Fail(KeyError("Jane"));

    assert book.Find("John") == Some(john);
    Fields.LeapDayAccepted();
    var answer := AddBirthdayHandler(book, ["add_birthday", "John", "29.02.2024"]);
    assert answer == Success(BirthdayAdded("John"));
    assert ShowBirthdayHandler(book, ["show_birthday", "John"]) == BirthdayOf("John", "29.02.2024");
  }
}
