/** parseVersionId: the raw query is split on '&' and ';', and the value of the first
    parameter that starts with "versionId=" is percent-decoded. */
module VersionId {
  import opened Wrappers
  import opened Errors
  import opened JavaStrings
  import opened PercentDecoding
  import opened Decoder

  const VersionIdKey: string := "versionId="

  /** The class [&;] of the split pattern. */
  predicate IsSeparator(c: char) {
    c == '&' || c == ';'
  }

  /** Every field of q between separators, in order, empty fields included. */
  function Fields(q: string): (r: seq<string>)
    ensures |r| >= 1
    ensures forall i :: 0 <= i < |r| ==> '&' !in r[i] && ';' !in r[i]
  {
    if q == [] then [[]]
    else
      var rest := Fields(q[1..]);
      if IsSeparator(q[0]) then [[]] + rest
      else [[q[0]] + rest[0]] + rest[1..]
  }

  /** The separators of q, in order. */
  function Separators(q: string): (r: string)
    ensures forall i :: 0 <= i < |r| ==> IsSeparator(r[i])
    ensures r == [] <==> '&' !in q && ';' !in q
  {
    if q == [] then []
    else (if IsSeparator(q[0]) then [q[0]] else []) + Separators(q[1..])
  }

  /** The fields put back together with the separators between them. */
  function Join(fields: seq<string>, separators: string): string
    requires |fields| == |separators| + 1
  {
    if separators == [] then fields[0]
    else fields[0] + [separators[0]] + Join(fields[1..], separators[1..])
  }

  /** Putting a character in front of the first field puts it in front of the join. */
  lemma JoinConsFirst(c: char, fields: seq<string>, separators: string)
    requires |fields| == |separators| + 1
    ensures Join([[c] + fields[0]] + fields[1..], separators) == [c] + Join(fields, separators)
  {
    var extended := [[c] + fields[0]] + fields[1..];
    assert extended[0] == [c] + fields[0] && extended[1..] == fields[1..];
    if separators != [] {
      var tail := Join(fields[1..], separators[1..]);
      assert ([c] + fields[0]) + [separators[0]] + tail == [c] + (fields[0] + [separators[0]] + tail);
    }
  }

  /** Fields loses nothing: there is one field more than there are separators, and
      joining them again gives q back. */
  lemma {:induction false} FieldsJoin(q: string)
    ensures |Fields(q)| == |Separators(q)| + 1
    ensures Join(Fields(q), Separators(q)) == q
  {
    if q != [] {
      FieldsJoin(q[1..]);
      var rest := Fields(q[1..]);
      var seps := Separators(q[1..]);
      if IsSeparator(q[0]) {
        assert Separators(q) == [q[0]] + seps;
        assert ([[]] + rest)[1..] == rest;
        assert [] + [q[0]] + q[1..] == q;
      } else {
        assert Separators(q) == seps;
        JoinConsFirst(q[0], rest, seps);
        assert [q[0]] + q[1..] == q;
      }
    }
  }

  /** fields without the empty strings at its end. */
  function DropTrailingEmpty(fields: seq<string>): (r: seq<string>)
    ensures |r| <= |fields| && r == fields[..|r|]
    ensures forall i :: |r| <= i < |fields| ==> fields[i] == []
    ensures r != [] ==> r[|r| - 1] != []
  {
    if fields == [] then []
    else if fields[|fields| - 1] == [] then DropTrailingEmpty(fields[..|fields| - 1])
    else fields
  }

  /** Pattern.split(query): the query itself when it holds no separator, otherwise its
      fields without the trailing empty ones. */
  function Split(q: string): (r: seq<string>)
    ensures forall i :: 0 <= i < |r| ==> '&' !in r[i] && ';' !in r[i]
    ensures Separators(q) != [] && r != [] ==> r[|r| - 1] != []
  {
    if Separators(q) == [] then [q] else DropTrailingEmpty(Fields(q))
  }

  /** The first parameter that starts with "versionId=". */
  function FirstVersionParam(params: seq<string>): (r: Option<string>)
    ensures r.Some? ==> StartsWith(r.value, VersionIdKey) && r.value in params
    ensures r.None? ==> forall i :: 0 <= i < |params| ==> !StartsWith(params[i], VersionIdKey)
  {
    if params == [] then None
    else if StartsWith(params[0], VersionIdKey) then Some(params[0])
    else FirstVersionParam(params[1..])
  }

  /** FirstVersionParam picks the earliest match and no other. */
  lemma {:induction false} FirstVersionParamIsFirst(params: seq<string>, i: nat)
    requires i < |params| && StartsWith(params[i], VersionIdKey)
    requires forall j :: 0 <= j < i ==> !StartsWith(params[j], VersionIdKey)
    ensures FirstVersionParam(params) == Some(params[i])
  {
    if i > 0 {
      FirstVersionParamIsFirst(params[1..], i - 1);
    }
  }

  /** Parameters that are empty strings never match, so dropping them from the end
      changes nothing. */
  lemma {:induction false} TrailingEmptyIgnored(params: seq<string>, n: nat)
    requires n <= |params|
    requires forall i :: n <= i < |params| ==> params[i] == []
    ensures FirstVersionParam(params[..n]) == FirstVersionParam(params)
  {
    if n > 0 {
      assert params[..n][1..] == params[1..][..n - 1];
      TrailingEmptyIgnored(params[1..], n - 1);
    } else {
      forall i | 0 <= i < |params| ensures !StartsWith(params[i], VersionIdKey) {
        assert params[i] == [];
      }
      assert FirstVersionParam(params).None?;
    }
  }

  /** The trailing empty strings Java's split drops do not change which parameter
      is found: searching the split equals searching every field. */
  lemma SplitFindsFirstField(q: string)
    ensures FirstVersionParam(Split(q)) == FirstVersionParam(Fields(q))
  {
    FieldsJoin(q);
    if Separators(q) == [] {
      assert Fields(q) == [Fields(q)[0]] == [q];
    } else {
      var fields := Fields(q);
      var r := DropTrailingEmpty(fields);
      TrailingEmptyIgnored(fields, |r|);
    }
  }

  /** The version id of a raw query: absent for a null query or when no parameter
      starts with "versionId=", otherwise the decoded rest of the first that does. */
  function VersionIdOf(query: Option<string>): (r: Result<Option<string>, Error>)
    ensures query.None? ==> r == Success(None)
    ensures r.Failure? ==> r.error == InvalidEscape
  {
    match query
    case None => Success(None)
    case Some(q) =>
      match FirstVersionParam(Split(q))
      case None => Success(None)
      case Some(param) => SomeDecoded(PercentDecode(param[|VersionIdKey|..]))
  }

  /** Stated over the fields of the query: the version id is the decoded value of the
      first field that starts with "versionId=". */
  lemma VersionIdOfFirstField(q: string, i: nat)
    requires i < |Fields(q)| && StartsWith(Fields(q)[i], VersionIdKey)
    requires forall j :: 0 <= j < i ==> !StartsWith(Fields(q)[j], VersionIdKey)
    ensures VersionIdOf(Some(q)) == SomeDecoded(PercentDecode(Fields(q)[i][|VersionIdKey|..]))
  {
    SplitFindsFirstField(q);
    FirstVersionParamIsFirst(Fields(q), i);
  }

  /** With no field starting with "versionId=", the version id is absent. */
  lemma VersionIdAbsent(q: string)
    requires forall i :: 0 <= i < |Fields(q)| ==> !StartsWith(Fields(q)[i], VersionIdKey)
    ensures VersionIdOf(Some(q)) == Success(None)
  {
    SplitFindsFirstField(q);
  }

  /** parseVersionId: an early-return scan over the split parameters. */
  method ParseVersionId(query: Option<string>) returns (r: Result<Option<string>, Error>)
    ensures r == VersionIdOf(query)
  {
    if query.Some? {
      var params := Split(query.value);
      for k := 0 to |params|
        invariant FirstVersionParam(params[k..]) == FirstVersionParam(params)
      {
        assert params[k..][1..] == params[k + 1..];
        if StartsWith(params[k], VersionIdKey) {
          r := Decode(Some(params[k][|VersionIdKey|..]));
          return;
        }
      }
    }
    return Success(None);
  }
}
