/**
 * The contact book (bot.py, class AddressBook, a UserDict): a dictionary
 * from a contact's name to its record, updated in place.
 */
module Book {
  import opened Wrappers
  import opened Exceptions
  import opened Records

  class AddressBook {
    var data: map<string, Record>

    /** Every record is filed under its own name. */
    ghost predicate Valid()
      reads this
    {
      forall k :: k in data ==> data[k].name == k
    }

    /** `AddressBook()`: an empty book. */
    constructor ()
      ensures Valid() && data == map[]
    {
      data := map[];
    }

    /** `find`: the record filed under the name, or None (`dict.get`). */
    function Find(name: string): (r: Option<Record>)
      reads this
      ensures r.Some? <==> name in data
      ensures r.Some? ==> r.value == data[name]
      ensures Valid() && r.Some? ==> r.value.name == name
    {
      if name in data then Some(data[name]) else None
    }

    /**
     * `add_record`: files the record under its name, silently replacing any
     * record already there; every other name keeps its entry.
     */
    method AddRecord(record: Record)
      modifies this
      ensures old(Valid()) ==> Valid()
      ensures data == old(data)[record.name := record]
      ensures Find(record.name) == Some(record)
      ensures forall k :: k != record.name ==> Find(k) == old(Find(k))
    {
      data := data[record.name := record];
    }

    /**
     * `delete`: removes the entry for a present name and nothing else; a
     * missing name raises KeyError and changes nothing (`del self.data[name]`).
     */
    method Delete(name: string) returns (r: Outcome<Error>)
      modifies this
      ensures old(Valid()) ==> Valid()
      ensures r.Pass? <==> name in old(data)
      ensures r.Pass? ==> data == old(data) - {name} && Find(name) == None
      ensures r.Fail? ==> r.error == KeyError(name) && data == old(data)
      ensures forall k :: k != name ==> Find(k) == old(Find(k))
    {
      if name !in data {
        return Fail(KeyError(name));
      }
      data := data - {name};
      return Pass;
    }
  }
}
