/** The "payload-type-map" configuration: a structure whose field names are
    original payload types and whose unsigned values are the matching RTX
    payload types. The sender turns it into a table original -> RTX, the
    receiver into the inverted table RTX -> original. Each walk visits the
    fields in order and inserts one entry per field, so a later field wins
    over an earlier one with the same key. */
module PtMap {
  import opened RtpPacket

  /** One field: its name already read as a number, and its value. */
  datatype Field = Field(name: uint32, value: uint32)

  type PtStructure = seq<Field>

  /** A structure never holds two fields with the same name. */
  ghost predicate DistinctNames(s: PtStructure)
  {
    forall i, j :: 0 <= i < j < |s| ==> s[i].name != s[j].name
  }

  ghost predicate DistinctValues(s: PtStructure)
  {
    forall i, j :: 0 <= i < j < |s| ==> s[i].value != s[j].value
  }

  /** No later field has the same value as field `i`. */
  ghost predicate LastWithValue(s: PtStructure, i: int)
    requires 0 <= i < |s|
  {
    forall j :: i < j < |s| ==> s[j].value != s[i].value
  }

  /** The sender's walk: one entry name -> value per field. */
  function ToMap(s: PtStructure): map<uint32, uint32>
  {
    if s == [] then map[] else ToMap(s[..|s| - 1])[s[|s| - 1].name := s[|s| - 1].value]
  }

  /** The receiver's walk: one entry value -> name per field. */
  function ToInvMap(s: PtStructure): map<uint32, uint32>
  {
    if s == [] then map[] else ToInvMap(s[..|s| - 1])[s[|s| - 1].value := s[|s| - 1].name]
  }

  /** The sender's table has an entry for every field name and no other
      key; each entry holds the value of a field of that name, and with
      distinct names the value of the one such field. */
  lemma {:induction false} ToMapSpec(s: PtStructure)
    ensures forall i :: 0 <= i < |s| ==> s[i].name in ToMap(s)
    ensures forall k :: k in ToMap(s) ==> exists i :: 0 <= i < |s| && s[i].name == k && ToMap(s)[k] == s[i].value
    ensures DistinctNames(s) ==> forall i :: 0 <= i < |s| ==> ToMap(s)[s[i].name] == s[i].value
  {
    if s != [] {
      var init := s[..|s| - 1];
      ToMapSpec(init);
      assert forall i :: 0 <= i < |init| ==> init[i] == s[i];
      forall i | 0 <= i < |s|
        ensures s[i].name in ToMap(s)
      {
        if i < |init| {
          assert s[i].name in ToMap(init);
        }
      }
      forall k | k in ToMap(s)
        ensures exists i :: 0 <= i < |s| && s[i].name == k && ToMap(s)[k] == s[i].value
      {
        if k != s[|s| - 1].name {
          assert k in ToMap(init);
          var i :| 0 <= i < |init| && init[i].name == k && ToMap(init)[k] == init[i].value;
          assert s[i].name == k && ToMap(s)[k] == s[i].value;
        }
      }
    }
  }

  /** The receiver's table has an entry for every field value and no other
      key; each entry holds the name of a field with that value, and where
      several fields share a value the last of them decides the entry. */
  lemma {:induction false} ToInvMapSpec(s: PtStructure)
    ensures forall i :: 0 <= i < |s| ==> s[i].value in ToInvMap(s)
    ensures forall k :: k in ToInvMap(s) ==> exists i :: 0 <= i < |s| && s[i].value == k && ToInvMap(s)[k] == s[i].name
    ensures forall i :: 0 <= i < |s| && LastWithValue(s, i) ==> ToInvMap(s)[s[i].value] == s[i].name
  {
    if s != [] {
      var init := s[..|s| - 1];
      ToInvMapSpec(init);
      assert forall i :: 0 <= i < |init| ==> init[i] == s[i];
      forall i | 0 <= i < |s|
        ensures s[i].value in ToInvMap(s)
      {
        if i < |init| {
          assert s[i].value in ToInvMap(init);
        }
      }
      forall k | k in ToInvMap(s)
        ensures exists i :: 0 <= i < |s| && s[i].value == k && ToInvMap(s)[k] == s[i].name
      {
        if k != s[|s| - 1].value {
          assert k in ToInvMap(init);
          var i :| 0 <= i < |init| && init[i].value == k && ToInvMap(init)[k] == init[i].name;
          assert s[i].value == k && ToInvMap(s)[k] == s[i].name;
        }
      }
      forall i | 0 <= i < |s| && LastWithValue(s, i)
        ensures ToInvMap(s)[s[i].value] == s[i].name
      {
        if i < |init| {
          assert LastWithValue(init, i);
        }
      }
    }
  }

  /** With distinct names and distinct values, the receiver's inverted table
      sends every RTX payload type of the sender's table back to the original
      payload type it was configured for. */
  lemma {:induction false} InvMapInvertsMap(s: PtStructure, pt: uint32)
    requires DistinctNames(s) && DistinctValues(s)
    requires pt in ToMap(s)
    ensures ToMap(s)[pt] in ToInvMap(s)
    ensures ToInvMap(s)[ToMap(s)[pt]] == pt
  {
    ToMapSpec(s);
    ToInvMapSpec(s);
    var i :| 0 <= i < |s| && s[i].name == pt;
    assert LastWithValue(s, i);
  }
}
