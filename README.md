# Contact book model

A Dafny model of `bot.py`, a small in-memory contact book. The model covers:

- **Phone and Birthday fields.** Each validates its string and refuses to be built from an invalid one.
- **Record.** One contact: a name, an ordered phone list that may hold duplicates, and an optional birthday.
- **AddressBook.** A dictionary from a contact's name to its record.
- **Two command handlers.** One sets a contact's birthday; the other shows it.

The source's exceptions become `Failure`/`Fail` values. `ValueError` comes from validation, `KeyError` from deleting a missing name, and `NameError` from the missing `datetime` import.

Modules, in dependency order:

- `Wrappers`, `Exceptions` (wrappers.dfy): `Option`, `Outcome`, `Result`, and the Python exceptions the book raises.
- `Fields` (fields.dfy): `Phone.validate` and `Phone(...)`, the DD.MM.YYYY birthday check, and `Birthday(...)`. A field is modelled by its string value. The birthday check is proved to accept exactly the DD.MM.YYYY renderings of calendar dates.
- `Records` (records.dfy): the class `Record`, whose fields `phones: seq<string>` and `birthday: Option<string>` its methods update in place. Beside it are the pure functions that say what each list operation computes: `Without` for `remove_phone`, `FirstIndex` for `find_phone`, `ReplaceFirst` for `edit_phone`, and `Join` for `'; '.join`. Lemmas state their properties. `EditPhone` keeps the source's loop-and-break and is proved against `ReplaceFirst`.
- `Book` (book.dfy): the class `AddressBook` with its field `data: map<string, Record>`. Its invariant `Valid()` says every record is filed under its own name. The constructor establishes it, and `add_record` and `delete` keep it.
- `Handlers` (handlers.dfy): `add_birthday_handler` and `show_birthday_handler`. bot.py reads a global `book` that it never defines. Here the book is an explicit argument. Two client methods use the contracts alone:
  - `PhoneSession` gives one contact, John, two valid phones and has a five-digit one refused. It then edits the first phone, finds the second, and removes a number that is not in the list, which changes nothing.
  - `BookSession` files John and Jane, neither with phones. It deletes Jane, and deleting her a second time raises `KeyError`. It then sets John's birthday to the leap day 29.02.2024 through the handler and shows it back.

Points where the model follows the code closely:

- Deleting a missing name raises `KeyError`, because `delete` is `del self.data[name]` on a dictionary.
- Phone editing never validates the new number. Phones can therefore have any length, and the summary's layout is stated for phones of any length.
- `Record.__str__` is modelled as written, and also in its intended form (see Findings).

## Model

| member | source | states |
|---|---|---|
| `Fields.AllDigitsIff` | bot.py:21 | The character-by-character scan standing for `str.isdigit` holds exactly when every character is a digit. |
| `Fields.NewPhone` | bot.py:14-21 | Building a Phone succeeds exactly when the value has length 10 and every character is a digit. The phone then holds the value unchanged. Otherwise it fails with `ValueError("Invalid phone number")`. |
| `Fields.ParseFormat` | bot.py:30-35 | Rendering a valid calendar date as DD.MM.YYYY and validating it gives back the same date. |
| `Fields.FormatParse` | bot.py:30-35 | Every string the birthday check accepts denotes a valid date, and it is exactly that date's DD.MM.YYYY rendering. |
| `Fields.ValidBirthdayIff` | bot.py:30-35 | The birthday check accepts a string exactly when the string is the rendering of some valid calendar date. |
| `Fields.NewBirthday` | bot.py:24-28 | Building a Birthday succeeds, holding the string unchanged, exactly when the string renders a calendar date. Otherwise it fails with `ValueError("Invalid birthday format. Use DD.MM.YYYY")`. |
| `Fields.LeapDayAccepted` | bot.py:32 | "29.02.2024" is accepted and denotes 29 February 2024. |
| `Fields.LeapDayRejectedInCommonYear` | bot.py:32 | "29.02.2023" is rejected, because 2023 is not a leap year. |
| `Fields.NewBirthdayAsWritten` | bot.py:30-35 | As written, building a Birthday always fails with `NameError`: `datetime` is never imported, and the `except ValueError` does not catch that error. |
| `Fields.MissingImportRejectsValidDate` | bot.py:32 | "01.01.2000" is a valid date that the intended check accepts and the code as written rejects. |
| `Records.WithoutCounts` | bot.py:47-48 | After removal, no entry equals the number, and every other number occurs exactly as often as before. |
| `Records.WithoutAppend` | bot.py:48 | Removal distributes over concatenation, so the remaining phones keep their original relative order. |
| `Records.WithoutAbsent` | bot.py:47-48 | Removing a number that is not in the list leaves the list unchanged. |
| `Records.FirstIndex` | bot.py:56-57 | The result is None exactly when the number is absent. Otherwise it is a position holding the number, with no earlier position holding it. |
| `Records.ReplaceFirstSpec` | bot.py:50-54 | Replacing changes only the first position equal to the old number, to the new one. A list without the old number is left unchanged. |
| `Records.JoinAt` | bot.py:77 | For parts of any length joined by a separator, part i stands at its offset: the total length of the earlier parts plus i separators. The separator follows every part but the last, and the last part ends the string. |
| `Records.PartShown` | bot.py:77 | The same layout holds with any head before and any tail after the joined parts: part i is shifted by the head's length. |
| `Records.JoinedLayout` | bot.py:76-78 | In head + joined phones + tail, the head is a prefix and the tail a suffix. Every phone stands at its offset after the head, with "; " after all but the last. The last phone ends where the tail begins, and with no phones head and tail meet. |
| `Records.SummaryAsWrittenHidesContact` | bot.py:75-78 | A contact with a phone but no birthday prints as "" as written, and as "Contact name: John, phones: 1234567890, " when corrected. |
| `Records.Record.constructor` | bot.py:39-42 | A new record has the given name, no phones and no birthday. |
| `Records.Record.AddPhone` | bot.py:44-45 | The call passes exactly when the number is a valid phone. Then the number is appended at the end and earlier phones are unchanged. An invalid number fails with the validation error and leaves the list unchanged. |
| `Records.Record.RemovePhone` | bot.py:47-48 | The new list is the old list with every phone equal to the number dropped and the rest in order. An absent number changes nothing and raises no error. |
| `Records.Record.EditPhone` | bot.py:50-54 | When the old number is present, the loop overwrites only its first occurrence. The new number is not validated, and length and all other positions are preserved. When it is absent, nothing changes. |
| `Records.Record.FindPhone` | bot.py:56-57 | Some exactly when the number is in the list. The phone found equals the number. |
| `Records.Record.AddBirthday` | bot.py:59-60 | The call passes exactly when the date is valid. Then it overwrites any earlier birthday. An invalid date fails with the validation error and leaves the birthday unchanged. |
| `Records.Record.Summary` | bot.py:75-78 | The intended string form begins with "Contact name: N, phones: ". Each phone, whatever its length, then stands at its offset in list order, with "; " between consecutive phones. The string ends with ", birthday: B" when a birthday is set and ", " when none is, and holds nothing else. |
| `Records.Record.SummaryAsWritten` | bot.py:75-78 | As written, `__str__` is the empty string exactly when the record has no birthday. With a birthday, it is the intended summary. |
| `Book.AddressBook.constructor` | bot.py:81 | A new book is empty and satisfies the name-key invariant. |
| `Book.AddressBook.Find` | bot.py:85-86 | Some exactly when the name is a key. The record returned is the one filed under it. When the book satisfies the name-key invariant, that record's name is the key. |
| `Book.AddressBook.AddRecord` | bot.py:82-83 | The record is filed under its name, silently replacing any earlier entry, so `Find` of that name returns it. Every other name keeps its entry. A book that satisfied the name-key invariant still does. |
| `Book.AddressBook.Delete` | bot.py:88-89 | For a present name, only that key is removed and `Find` then gives None. For an absent name, the call fails with `KeyError(name)` and the book is unchanged. A book that satisfied the name-key invariant still does. |
| `Handlers.ShowBirthdayHandler` | bot.py:103-111 | With a token count other than 2, the usage message. Otherwise "Birthday for N: B" when the contact exists and has a birthday. In every other case the single not-found-or-no-birthday message. |
| `Handlers.AddBirthdayHandler` | bot.py:92-101 | With a token count other than 3, the usage message. For an unknown contact, the not-found message. In both cases nothing changes. Otherwise the contact's birthday is set and "Birthday added for N" returned, or the validation error propagates with the birthday unchanged. No other record object changes. When the book satisfies the name-key invariant, no other name's record changes. A later show returns the new birthday. |

## Left out

- `Record.days_to_birthday` (bot.py:62-72) is not modelled. It reads the wall clock, and it uses the `.month`/`.day` attributes, which a Birthday does not have.
- `show_birthdays_next_week_handler` (bot.py:113-122) is not modelled. It reads the clock, uses nonexistent `.year/.month/.day` attributes, and returns only a constant header, discarding the list it builds.
- `Fields.NewBirthday`: the check is a simplified stand-in for `datetime.strptime(value, "%d.%m.%Y")`, not a model of the library.
  - It accepts exactly two-digit day and month fields and a four-digit year from 1 to 9999, with Gregorian month lengths.
  - `strptime` also accepts one-digit day and month fields ("1.1.2000"), a space-padded day, and non-ASCII digits. The model rejects these.
- `Fields.NewPhone`: digits are the ASCII characters '0' to '9'. Python's `str.isdigit` also accepts other Unicode digit characters.
- Python object identity is not modelled. A phone is its string value. `find_phone` returns the Phone object, and `edit_phone` mutates it in place, so the change is visible through any alias a caller kept. The model has no such aliases.
- `Record.name` is a constant. No method of the source changes it, but a caller could reassign it after filing and break the name-key invariant. The model rules that out.
- Other members are not modelled:
  - the enumeration of records and the other dictionary operations inherited from `UserDict`;
  - `Field.__str__`, which is the stored value itself.
- Python's dynamic typing is left out. Non-string arguments, such as a phone number given as an int, are outside the model.
- The command dispatcher, input tokenization and printing of answers are outside bot.py.
- The undefined global `book` becomes the handlers' explicit argument.

## Findings

| source | as written | input that shows it | evidently intended | confidence | as-written member | corrected member |
|---|---|---|---|---|---|---|
| bot.py:32 | `Birthday.validate` calls `datetime.strptime`, but bot.py:1 imports only `UserDict`, so every Birthday construction raises `NameError`. | `Birthday("01.01.2000")`, or `add_birthday_handler(["add_birthday", "John", "01.01.2000"])` | accept a DD.MM.YYYY calendar date, reject anything else with `ValueError` | high (not executed) | `Fields.NewBirthdayAsWritten` | `Fields.NewBirthday` |
| bot.py:76-78 | The `... if self.birthday else ""` covers the whole concatenated f-string, so a record without a birthday prints as "". | a Record "John" with phone "1234567890" and no birthday | always print name and phones; only the birthday part depends on the birthday. The corrected form puts the conditional around the last f-string alone, so without a birthday the summary keeps its trailing ", " | medium (not executed) | `Records.Record.SummaryAsWritten` | `Records.Record.Summary` |

`Fields.MissingImportRejectsValidDate` and `Records.SummaryAsWrittenHidesContact` exhibit the two discrepancies. `Record.AddBirthday` uses the corrected check and `Record.Summary` is the corrected summary.
