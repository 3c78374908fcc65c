/** The credential mapper: picks the configured (username, password) pair for the
    client the broker names in the `x-openhim-clientid` header. */
module CredentialMapper {
  import opened Wrappers

  /** One entry of the configured `mapping` table. */
  datatype Mapping = Mapping(clientID: string, username: string, password: string)

  /** Strict equality of the entry's client ID with the header value; an absent
      header equals no configured (string) client ID. */
  predicate Matches(m: Mapping, clientId: Option<string>)
  {
    clientId == Some(m.clientID)
  }

  /** Index of the last matching entry of the table: the entry the scan without
      early exit leaves selected. Defined by searching from the end. */
  function LastMatch(clientId: Option<string>, table: seq<Mapping>): (r: Option<nat>)
    ensures r.Some? ==> r.value < |table| && Matches(table[r.value], clientId)
    ensures r.Some? ==> forall j :: r.value < j < |table| ==> !Matches(table[j], clientId)
    ensures r.None? ==> forall j :: 0 <= j < |table| ==> !Matches(table[j], clientId)
    decreases |table|
  {
    if |table| == 0 then None
    else if Matches(table[|table| - 1], clientId) then Some(|table| - 1)
    else LastMatch(clientId, table[..|table| - 1])
  }

  /** The selected mapping: none when the configuration has no `mapping` table or
      no entry matches; otherwise the last matching entry. */
  function Select(clientId: Option<string>, mapping: Option<seq<Mapping>>): Option<Mapping>
  {
    if mapping.None? then None
    else
      var i := LastMatch(clientId, mapping.value);
      if i.None? then None else Some(mapping.value[i.value])
  }

  /** The scan over `config.mapping`: every entry is visited, and each match
      overwrites the one selected before it. */
  method FindMapping(clientId: Option<string>, mapping: Option<seq<Mapping>>) returns (found: Option<Mapping>)
    ensures found == Select(clientId, mapping)
    ensures found.Some? <==> mapping.Some? && exists j :: 0 <= j < |mapping.value| && Matches(mapping.value[j], clientId)
    ensures found.Some? ==> found.value in mapping.value && Matches(found.value, clientId)
  {
    found := None;
    if mapping.Some? {
      var table := mapping.value;
      var i := 0;
      while i < |table|
        invariant 0 <= i <= |table|
        invariant found == Select(clientId, Some(table[..i]))
      {
        assert table[..i + 1][..i] == table[..i];
        if Matches(table[i], clientId) {
          found := Some(table[i]);
        }
        i := i + 1;
      }
      assert table[..i] == table;
    }
  }

  /** Insertion order decides between duplicates: an entry that matches wins over
      every matching entry before it, provided none after it matches. */
  lemma {:induction false} LastMatchWins(clientId: Option<string>, before: seq<Mapping>, m: Mapping, after: seq<Mapping>)
    requires Matches(m, clientId)
    requires forall j :: 0 <= j < |after| ==> !Matches(after[j], clientId)
    ensures Select(clientId, Some(before + [m] + after)) == Some(m)
  {
    var table := before + [m] + after;
    var i := LastMatch(clientId, table);
    assert Matches(table[|before|], clientId);
    assert i.Some?;
  }
}
