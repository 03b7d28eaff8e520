/**
 * A contact (bot.py, class Record): a name, an ordered list of phone numbers
 * that may repeat, and an optional birthday. A phone is modelled by its
 * string value. The pure functions first say what each list operation of the
 * class computes; the class methods are proved against them.
 */
module Records {
  import opened Wrappers
  import opened Exceptions
  import Fields

  // ---------------------------------------------------------------------------
  // The phone list
  // ---------------------------------------------------------------------------

  /** The list with every entry equal to `x` dropped: the comprehension of `remove_phone`. */
  function Without(s: seq<string>, x: string): seq<string>
  {
    if s == [] then []
    else if s[0] == x then Without(s[1..], x)
    else [s[0]] + Without(s[1..], x)
  }

  /** Nothing equal to `x` remains, and every other entry keeps its number of occurrences. */
  lemma {:induction false} WithoutCounts(s: seq<string>, x: string)
    ensures multiset(Without(s, x)) == multiset(s)[x := 0]
    ensures x !in Without(s, x)
  {
    if s != [] {
      WithoutCounts(s[1..], x);
      assert s == [s[0]] + s[1..];
    }
  }

  /** Filtering distributes over concatenation, so survivors keep their relative order. */
  lemma {:induction false} WithoutAppend(a: seq<string>, b: seq<string>, x: string)
    ensures Without(a + b, x) == Without(a, x) + Without(b, x)
  {
    if a != [] {
      WithoutAppend(a[1..], b, x);
      assert (a + b)[1..] == a[1..] + b;
    } else {
      assert a + b == b;
    }
  }

  /** Removing a number that is not in the list leaves the list as it was. */
  lemma {:induction false} WithoutAbsent(s: seq<string>, x: string)
    requires x !in s
    ensures Without(s, x) == s
  {
    if s != [] {
      WithoutAbsent(s[1..], x);
    }
  }

  /** The position of the first entry equal to `x`: the generator of `find_phone`. */
  function FirstIndex(s: seq<string>, x: string): (r: Option<nat>)
    ensures r.None? <==> x !in s
    ensures r.Some? ==> r.value < |s| && s[r.value] == x
    ensures r.Some? ==> forall k :: 0 <= k < r.value ==> s[k] != x
  {
    if s == [] then None
    else if s[0] == x then Some(0)
    else match FirstIndex(s[1..], x)
      case None => None
      case Some(i) => Some(i + 1)
  }

  /** The list with its first entry equal to `x` changed to `y`: what `edit_phone` does. */
  function ReplaceFirst(s: seq<string>, x: string, y: string): seq<string>
  {
    if s == [] then []
    else if s[0] == x then [y] + s[1..]
    else [s[0]] + ReplaceFirst(s[1..], x, y)
  }

  /**
   * Only the first occurrence of `x` is replaced, nothing else moves, and a
   * list without `x` is left as it was.
   */
  lemma {:induction false} ReplaceFirstSpec(s: seq<string>, x: string, y: string)
    ensures FirstIndex(s, x).None? ==> ReplaceFirst(s, x, y) == s
    ensures FirstIndex(s, x).Some? ==> ReplaceFirst(s, x, y) == s[FirstIndex(s, x).value := y]
  {
    if s != [] && s[0] != x {
      ReplaceFirstSpec(s[1..], x, y);
    }
  }

  /** `sep.join(parts)`. */
  function Join(parts: seq<string>, sep: string): string
  {
    if |parts| == 0 then ""
    else if |parts| == 1 then parts[0]
    else parts[0] + sep + Join(parts[1..], sep)
  }

  /** Where the `i`-th part starts in `Join(parts, sep)`: the earlier parts and their separators. */
  function Offset(parts: seq<string>, sep: string, i: nat): nat
    requires i <= |parts|
  {
    if i == 0 then 0 else |parts[0]| + |sep| + Offset(parts[1..], sep, i - 1)
  }

  /**
   * Each part stands at its offset, in list order, followed by the separator
   * unless it is the last part, which ends the joined string.
   */
  lemma {:induction false} JoinAt(parts: seq<string>, sep: string, i: nat)
    requires i < |parts|
    ensures Offset(parts, sep, i) + |parts[i]| <= |Join(parts, sep)|
    ensures Join(parts, sep)[Offset(parts, sep, i) .. Offset(parts, sep, i) + |parts[i]|] == parts[i]
    ensures i + 1 < |parts| ==>
      var end := Offset(parts, sep, i) + |parts[i]|;
      end + |sep| <= |Join(parts, sep)| && Join(parts, sep)[end .. end + |sep|] == sep
    ensures i + 1 == |parts| ==> |Join(parts, sep)| == Offset(parts, sep, i) + |parts[i]|
  {
    var j := Join(parts, sep);
    if |parts| > 1 {
      var rest := Join(parts[1..], sep);
      assert j == parts[0] + sep + rest;
      if i > 0 {
        JoinAt(parts[1..], sep, i - 1);
        var o := Offset(parts[1..], sep, i - 1);
        SliceAfter(parts[0] + sep, rest, o, o + |parts[i]|);
        if i + 1 < |parts| {
          SliceAfter(parts[0] + sep, rest, o + |parts[i]|, o + |parts[i]| + |sep|);
        }
      }
    }
  }

  /** A slice of `y` is found in `x + y` shifted by `|x|`. */
  lemma SliceAfter(x: string, y: string, a: nat, b: nat)
    requires a <= b <= |y|
    ensures (x + y)[|x| + a .. |x| + b] == y[a .. b]
  {
  }

  /** A slice of `y` is found in `x + y + z` shifted by `|x|`. */
  lemma SliceBetween(x: string, y: string, z: string, a: nat, b: nat)
    requires a <= b <= |y|
    ensures (x + y + z)[|x| + a .. |x| + b] == y[a .. b]
  {
    assert x + y + z == x + (y + z);
    SliceAfter(x, y + z, a, b);
    assert (y + z)[a .. b] == y[a .. b];
  }

  // ---------------------------------------------------------------------------
  // The summary string
  // ---------------------------------------------------------------------------

  /** Part `i` stands in `r` at its offset after `start`, followed by `sep` unless it is the last. */
  predicate ShownAt(r: string, start: nat, parts: seq<string>, sep: string, i: nat)
    requires i < |parts|
  {
    var at := start + Offset(parts, sep, i);
    var end := at + |parts[i]|;
    && end <= |r| && r[at .. end] == parts[i]
    && (i + 1 < |parts| ==> end + |sep| <= |r| && r[end .. end + |sep|] == sep)
  }

  /** Part `i` of the list, joined by `sep` between a head and a tail, stands at its offset. */
  lemma PartShown(head: string, parts: seq<string>, sep: string, tail: string, i: nat)
    requires i < |parts|
    ensures ShownAt(head + Join(parts, sep) + tail, |head|, parts, sep, i)
  {
    var joined := Join(parts, sep);
    var o := Offset(parts, sep, i);
    var end := o + |parts[i]|;
    JoinAt(parts, sep, i);
    SliceBetween(head, joined, tail, o, end);
    if i + 1 < |parts| {
      SliceBetween(head, joined, tail, end, end + |sep|);
    }
  }

  /** The joined phones between a head and a tail: every phone in place, and the last one ends where the tail begins. */
  lemma JoinedLayout(head: string, phones: seq<string>, tail: string)
    ensures var r := head + Join(phones, "; ") + tail;
      && r[..|head|] == head
      && (forall i :: 0 <= i < |phones| ==> ShownAt(r, |head|, phones, "; ", i))
      && |tail| <= |r| && r[|r| - |tail| ..] == tail
      && (phones == [] ==> |r| == |head| + |tail|)
      && (phones != [] ==> |head| + Offset(phones, "; ", |phones| - 1) + |phones[|phones| - 1]| == |r| - |tail|)
  {
    var r := head + Join(phones, "; ") + tail;
    forall i | 0 <= i < |phones| ensures ShownAt(r, |head|, phones, "; ", i) {
      PartShown(head, phones, "; ", tail, i);
    }
    if phones != [] {
      JoinAt(phones, "; ", |phones| - 1);
    }
    assert r[..|head|] == head;
    assert r[|r| - |tail| ..] == tail;
  }

  /** The summary up to the phone list. */
  function Header(name: string): string {
    "Contact name: " + name + ", phones: "
  }

  /**
   * The summary after the phone list, as intended: the conditional covers only
   * the last f-string, so without a birthday the ", " after the phones remains.
   */
  function Ending(birthday: Option<string>): string {
    match birthday
    case None => ", "
    case Some(b) => ", birthday: " + b
  }

  // ---------------------------------------------------------------------------
  // The record
  // ---------------------------------------------------------------------------

  class Record {
    const name: string
    var phones: seq<string>
    var birthday: Option<string>

    /** `Record(name)`: no phones and no birthday yet. */
    constructor (name: string)
      ensures this.name == name && phones == [] && birthday == None
    {
      this.name := name;
      phones := [];
      birthday := None;
    }

    /** `add_phone`: a valid number goes on the end; an invalid one raises and changes nothing. */
    method AddPhone(number: string) returns (r: Outcome<Error>)
      modifies this`phones
      ensures r.Pass? <==> Fields.ValidPhone(number)
      ensures r.Fail? ==> r.error == ValueError(Fields.INVALID_PHONE_MESSAGE)
      ensures phones == if r.Pass? then old(phones) + [number] else old(phones)
    {
      var phone := Fields.NewPhone(number);
      Fields.AllDigitsIff(number);
      if phone.Failure? {
        return Fail(phone.error);
      }
      phones := phones + [phone.value];
      return Pass;
    }

    /** `remove_phone`: every entry equal to the number is dropped; absence is no error. */
    method RemovePhone(number: string)
      modifies this`phones
      ensures phones == Without(old(phones), number)
      ensures number !in phones
      ensures number !in old(phones) ==> phones == old(phones)
    {
      WithoutCounts(phones, number);
      if number !in phones {
        WithoutAbsent(phones, number);
      }
      phones := Without(phones, number);
    }

    /**
     * `edit_phone`: walks the list and overwrites the first entry equal to the
     * old number, without validating the new one; no match, no change.
     */
    method EditPhone(oldNumber: string, newNumber: string)
      modifies this`phones
      ensures phones == ReplaceFirst(old(phones), oldNumber, newNumber)
      ensures oldNumber !in old(phones) ==> phones == old(phones)
      ensures oldNumber in old(phones) ==>
        var i := FirstIndex(old(phones), oldNumber).value;
        phones == old(phones)[i := newNumber]
    {
      ReplaceFirstSpec(phones, oldNumber, newNumber);
      var i := 0;
      while i < |phones|
        invariant i <= |phones|
        invariant phones == old(phones)
        invariant forall k :: 0 <= k < i ==> phones[k] != oldNumber
      {
        if phones[i] == oldNumber {
          phones := phones[i := newNumber];
          return;
        }
        i := i + 1;
      }
    }

    /** `find_phone`: the first phone equal to the number, or None. */
    function FindPhone(number: string): (r: Option<string>)
      reads this
      ensures r.Some? <==> number in phones
      ensures r.Some? ==> r.value == number
    {
      match FirstIndex(phones, number)
      case None => None
      case Some(i) => Some(phones[i])
    }

    /** `add_birthday`: a valid date overwrites any earlier birthday; an invalid one raises and changes nothing. */
    method AddBirthday(date: string) returns (r: Outcome<Error>)
      modifies this`birthday
      ensures r.Pass? <==> Fields.ValidBirthday(date)
      ensures r.Fail? ==> r.error == ValueError(Fields.INVALID_BIRTHDAY_MESSAGE)
      ensures birthday == if r.Pass? then Some(date) else old(birthday)
    {
      var b := Fields.NewBirthday(date);
      if b.Failure? {
        return Fail(b.error);
      }
      birthday := Some(b.value);
      return Pass;
    }

    /**
     * `str(record)` with the precedence of its conditional corrected: the
     * header naming the contact, each phone at its offset in list order with
     * "; " between consecutive phones, then the ending, and nothing else.
     */
    function Summary(): (r: string)
      reads this
      ensures |Header(name)| <= |r| && r[..|Header(name)|] == Header(name)
      ensures forall i :: 0 <= i < |phones| ==> ShownAt(r, |Header(name)|, phones, "; ", i)
      ensures |Ending(birthday)| <= |r| && r[|r| - |Ending(birthday)| ..] == Ending(birthday)
      ensures phones == [] ==> |r| == |Header(name)| + |Ending(birthday)|
      ensures phones != [] ==>
        |Header(name)| + Offset(phones, "; ", |phones| - 1) + |phones[|phones| - 1]| == |r| - |Ending(birthday)|
    {
      JoinedLayout(Header(name), phones, Ending(birthday));
      Header(name) + Join(phones, "; ") + Ending(birthday)
    }

    /**
     * `str(record)` as written: the conditional expression binds looser than
     * the concatenated f-strings, so the whole summary is replaced by "" when
     * the record has no birthday, and is the corrected summary otherwise.
     */
    function SummaryAsWritten(): (r: string)
      reads this
      ensures r == "" <==> birthday.None?
      ensures birthday.Some? ==> r == Summary()
    {
      match birthday
      case None => ""
      case Some(b) => "Contact name: " + name + ", phones: " + Join(phones, "; ") + ", " + "birthday: " + b
    }
  }

  /** A contact with a phone and no birthday: the code as written prints nothing. */
  lemma SummaryAsWrittenHidesContact(r: Record)
    requires r.name == "John" && r.phones == ["1234567890"] && r.birthday == None
    ensures r.SummaryAsWritten() == ""
    ensures r.Summary() == "Contact name: John, phones: 1234567890, "
  {
  }
}
