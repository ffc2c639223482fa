/** The decoded form of a Sekvap string: an ordered list of key/value entries. */
module Entries {
  import opened Wrappers

  /**
   * One AbstractMap.SimpleEntry<String, String>. The value may be null
   * (a key written without `=`). A null key is not modelled separately:
   * the serializer treats it exactly like the empty key.
   */
  datatype Entry = Entry(key: string, value: Option<string>)

  /** The key the codec reserves for the leading, anonymous value. */
  const ValueKey: string := "Value"

  /** The ArrayList the parser fills in place. */
  class EntryList {
    var items: seq<Entry>

    constructor ()
      ensures items == []
    {
      items := [];
    }
  }

  /** AddToResult: appends the entry (key, value) at the end of the list. */
  method AddToResult(collection: EntryList, key: string, value: Option<string>)
    modifies collection
    ensures collection.items == old(collection.items) + [Entry(key, value)]
  {
    collection.items := collection.items + [Entry(key, value)];
  }
}
