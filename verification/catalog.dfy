/** The item-type catalog: API codes such as `journalArticle` mapped to display labels. */
module Catalog {

  /** One element of the item-type list: its `itemType` code and `localized` label. */
  datatype TypeEntry = TypeEntry(itemType: string, localized: string)

  /** The codes that occur in the list. */
  function Codes(entries: seq<TypeEntry>): set<string> {
    set i | 0 <= i < |entries| :: entries[i].itemType
  }

  /** `entries[i]` is the last entry carrying its code. */
  predicate LastWithCode(entries: seq<TypeEntry>, i: int)
    requires 0 <= i < |entries|
  {
    forall j :: i < j < |entries| ==> entries[j].itemType != entries[i].itemType
  }

  /**
    The dictionary the script fills entry by entry: every code of the list is a
    key and nothing else is, and a code listed more than once keeps the label of
    its last entry, since each assignment overwrites the one before.
  */
  function LabelMap(entries: seq<TypeEntry>): (labels: map<string, string>)
    ensures labels.Keys == Codes(entries)
    ensures forall i :: 0 <= i < |entries| && LastWithCode(entries, i) ==>
      labels[entries[i].itemType] == entries[i].localized
    decreases |entries|
  {
    if |entries| == 0 then map[]
    else
      var last := entries[|entries| - 1];
      var prefix := entries[..|entries| - 1];
      CodesSnoc(entries);
      LabelMap(prefix)[last.itemType := last.localized]
  }

  lemma CodesSnoc(entries: seq<TypeEntry>)
    requires |entries| > 0
    ensures Codes(entries) == Codes(entries[..|entries| - 1]) + {entries[|entries| - 1].itemType}
    ensures forall i :: 0 <= i < |entries| - 1 && LastWithCode(entries, i) ==> LastWithCode(entries[..|entries| - 1], i)
  {
    var prefix := entries[..|entries| - 1];
    forall c | c in Codes(entries) ensures c in Codes(prefix) + {entries[|entries| - 1].itemType} {
      var i :| 0 <= i < |entries| && entries[i].itemType == c;
      if i < |prefix| {
        assert prefix[i] == entries[i];
      }
    }
    forall c | c in Codes(prefix) ensures c in Codes(entries) {
      var i :| 0 <= i < |prefix| && prefix[i].itemType == c;
      assert entries[i] == prefix[i];
    }
  }

  /** Every listed code is labelled by some entry with that code, namely the last one. */
  lemma LabelMapValues(entries: seq<TypeEntry>, code: string)
    requires code in Codes(entries)
    ensures exists i :: 0 <= i < |entries| && entries[i].itemType == code && LastWithCode(entries, i) && LabelMap(entries)[code] == entries[i].localized
  {
    var i :| 0 <= i < |entries| && entries[i].itemType == code;
    while !LastWithCode(entries, i)
      invariant 0 <= i < |entries| && entries[i].itemType == code
      decreases |entries| - i
    {
      var j :| i < j < |entries| && entries[j].itemType == code;
      i := j;
    }
  }
}
