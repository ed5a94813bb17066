/**
 * The primary-key codec: `pkeyToValue` joins a row's key components into one
 * wire id, `pkeyToArray` strips the id prefix and splits a wire id back into
 * a column -> component map. Only flat access (direct key lookup) is modelled.
 */
module PrimaryKey {
  import opened Text
  import opened Values

  /**
   * `_pkeySeparator()`: a checksum of the comma-joined key columns. The
   * checksum (crc32 in the source) is a parameter; all the model relies on is
   * that it is a function, so the separator is fixed by the key columns.
   */
  function Separator(checksum: string -> NonEmpty, pkey: seq<string>): (r: NonEmpty)
  {
    checksum(Join(pkey, ","))
  }

  /** In flat mode a component is available only when its value is truthy. */
  predicate Present(row: Row, column: string)
  {
    column in row && Truthy(row[column])
  }

  predicate AllPresent(row: Row, pkey: seq<string>)
  {
    forall i :: 0 <= i < |pkey| ==> Present(row, pkey[i])
  }

  /** The key components of `row`, as text, in key-column order. */
  function Components(row: Row, pkey: seq<string>): (parts: seq<string>)
    requires AllPresent(row, pkey)
  {
    seq(|pkey|, i requires 0 <= i < |pkey| => ToText(row[pkey[i]]))
  }

  /** What `pkeyToValue(row, true)` returns or throws. */
  function Encode(row: Row, pkey: seq<string>, sep: NonEmpty): (r: Result<string>)
  {
    if AllPresent(row, pkey) then Success(Join(Components(row, pkey), sep))
    else Failure(MissingKeyComponent)
  }

  /** `pkeyToValue(row, true)`. */
  method PkeyToValue(row: Row, pkey: seq<string>, sep: NonEmpty) returns (r: Result<string>)
    ensures r.Failure? <==> exists i :: 0 <= i < |pkey| && !Present(row, pkey[i])
    ensures r.Failure? ==> r.error == MissingKeyComponent
    ensures r.Success? ==> AllPresent(row, pkey) && r.value == Join(Components(row, pkey), sep)
    ensures r == Encode(row, pkey, sep)
  {
    var id: seq<string> := [];
    var i := 0;
    while i < |pkey|
      invariant 0 <= i <= |pkey|
      invariant forall j :: 0 <= j < i ==> Present(row, pkey[j])
      invariant |id| == i && forall j :: 0 <= j < i ==> id[j] == ToText(row[pkey[j]])
    {
      var column := pkey[i];
      var val := if column in row && Truthy(row[column]) then row[column] else Null;
      if val == Null {
        return Failure(MissingKeyComponent);
      }
      id := id + [ToText(val)];
      i := i + 1;
    }
    assert id == Components(row, pkey);
    r := Success(Join(id, sep));
  }

  /** The map `arr[keys[i]] = parts[i]` builds, assigning in order. */
  function Zip(keys: seq<string>, parts: seq<string>): (r: map<string, string>)
    requires |keys| == |parts|
  {
    if |keys| == 0 then map[]
    else Zip(keys[..|keys| - 1], parts[..|parts| - 1])[keys[|keys| - 1] := parts[|parts| - 1]]
  }

  /** Every key gets an entry, and every entry is a part given for that key. */
  lemma {:induction false} ZipEntries(keys: seq<string>, parts: seq<string>)
    requires |keys| == |parts|
    ensures forall k :: k in Zip(keys, parts) <==> k in keys
    ensures forall k :: k in Zip(keys, parts) ==>
      exists i :: 0 <= i < |keys| && keys[i] == k && Zip(keys, parts)[k] == parts[i]
  {
    if |keys| > 0 {
      var n := |keys| - 1;
      ZipEntries(keys[..n], parts[..n]);
      assert keys == keys[..n] + [keys[n]];
      forall k | k in Zip(keys, parts)
        ensures exists i :: 0 <= i < |keys| && keys[i] == k && Zip(keys, parts)[k] == parts[i]
      {
        if k != keys[n] {
          assert k in Zip(keys[..n], parts[..n]);
          var i :| 0 <= i < n && keys[..n][i] == k && Zip(keys[..n], parts[..n])[k] == parts[..n][i];
          assert keys[i] == k && parts[i] == parts[..n][i];
        }
      }
    }
  }

  /** Where a key repeats, the last part given for it wins. */
  lemma {:induction false} ZipLastWins(keys: seq<string>, parts: seq<string>, i: nat)
    requires |keys| == |parts| && i < |keys|
    requires forall j :: i < j < |keys| ==> keys[j] != keys[i]
    ensures keys[i] in Zip(keys, parts) && Zip(keys, parts)[keys[i]] == parts[i]
  {
    var n := |keys| - 1;
    if i < n {
      ZipLastWins(keys[..n], parts[..n], i);
    }
  }

  /** What `pkeyToArray(value, true, pkey)` returns or throws. */
  function Decode(value: string, prefix: string, sep: NonEmpty, pkey: seq<string>): (r: Result<map<string, string>>)
  {
    var parts := Split(ReplaceFirst(value, prefix, ""), sep);
    if |pkey| != |parts| then Failure(KeyArityMismatch) else Success(Zip(pkey, parts))
  }

  /** `pkeyToArray(value, true, pkey)`. */
  method PkeyToArray(value: string, prefix: string, sep: NonEmpty, pkey: seq<string>)
    returns (r: Result<map<string, string>>)
    ensures r.Failure? <==> |Split(ReplaceFirst(value, prefix, ""), sep)| != |pkey|
    ensures r.Failure? ==> r.error == KeyArityMismatch
    ensures r == Decode(value, prefix, sep, pkey)
  {
    var stripped := ReplaceFirst(value, prefix, "");
    var idParts := Split(stripped, sep);
    if |pkey| != |idParts| {
      return Failure(KeyArityMismatch);
    }
    var arr: map<string, string> := map[];
    var i := 0;
    while i < |idParts|
      invariant 0 <= i <= |idParts|
      invariant arr == Zip(pkey[..i], idParts[..i])
    {
      assert pkey[..i + 1][..i] == pkey[..i] && idParts[..i + 1][..i] == idParts[..i];
      arr := arr[pkey[i] := idParts[i]];
      i := i + 1;
    }
    assert pkey[..i] == pkey && idParts[..i] == idParts;
    r := Success(arr);
  }

  /** Decoding a prefixed join of joinable parts gives the parts back, zipped with the key columns. */
  lemma DecodeJoin(parts: seq<string>, pkey: seq<string>, prefix: string, sep: NonEmpty)
    requires |parts| == |pkey| && Joinable(parts, sep)
    ensures Decode(prefix + Join(parts, sep), prefix, sep, pkey) == Success(Zip(pkey, parts))
  {
    SplitJoin(parts, sep);
    StripPrefix(prefix, Join(parts, sep));
  }

  /**
   * The round trip `_get` relies on: decoding `prefix + pkeyToValue(row)`
   * maps every key column to the text of the row's component, provided the
   * components are joinable: each but the last is separable, and the last
   * does not contain the separator.
   */
  lemma RoundTrip(row: Row, pkey: seq<string>, prefix: string, sep: NonEmpty)
    requires |pkey| >= 1 && AllPresent(row, pkey)
    requires Joinable(Components(row, pkey), sep)
    ensures Encode(row, pkey, sep).Success?
    ensures var d := Decode(prefix + Encode(row, pkey, sep).value, prefix, sep, pkey);
      d.Success? && forall i :: 0 <= i < |pkey| ==> pkey[i] in d.value && d.value[pkey[i]] == ToText(row[pkey[i]])
  {
    var parts := Components(row, pkey);
    assert Encode(row, pkey, sep) == Success(Join(parts, sep));
    DecodeJoin(parts, pkey, prefix, sep);
    var z := Zip(pkey, parts);
    ZipEntries(pkey, parts);
    forall i | 0 <= i < |pkey| ensures pkey[i] in z && z[pkey[i]] == ToText(row[pkey[i]]) {
      assert pkey[i] in z;
      var j :| 0 <= j < |pkey| && pkey[j] == pkey[i] && z[pkey[i]] == parts[j];
    }
  }

  /** With a one-column key, an id whose value contains the separator never decodes. */
  lemma SeparatorInValueBreaks(row: Row, column: string, prefix: string, sep: NonEmpty, a: string, b: string)
    requires Present(row, column) && ToText(row[column]) == a + sep + b
    ensures Encode(row, [column], sep) == Success(a + sep + b)
    ensures Decode(prefix + Encode(row, [column], sep).value, prefix, sep, [column]) == Failure(KeyArityMismatch)
  {
    assert Components(row, [column]) == [a + sep + b];
    StripPrefix(prefix, a + sep + b);
    ContainedSeparatorSplits(a, b, sep);
  }
}
