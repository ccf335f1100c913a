/**
 * The list of saved code shown as a table: one row per entry of the
 * dictionary, labelled by the keys in ascending order.
 */
module SavedCodeList {
  import opened StringOrder

  /** The row labels list the dictionary's keys, each once, in ascending order. */
  ghost predicate KeysAligned(savedCode: map<string, string>, keys: seq<string>)
  {
    StrictlySorted(keys) && forall k :: k in keys <==> k in savedCode
  }

  /** `Array(savedCode.keys).sorted()` lists the keys in aligned order. */
  lemma SortedKeysAligned(savedCode: map<string, string>)
    ensures KeysAligned(savedCode, SortedKeys(savedCode.Keys))
  {
  }

  /** There is only one aligned list for a dictionary: the sorted keys. */
  lemma AlignedUnique(savedCode: map<string, string>, keys: seq<string>)
    requires KeysAligned(savedCode, keys)
    ensures keys == SortedKeys(savedCode.Keys)
  {
    SortedUnique(keys, SortedKeys(savedCode.Keys));
  }

  /** While aligned, the table has one row per label: `savedCode.count == savedCodeKeys.count`. */
  lemma AlignedLength(savedCode: map<string, string>, keys: seq<string>)
    requires KeysAligned(savedCode, keys)
    ensures |keys| == |savedCode|
  {
    AlignedUnique(savedCode, keys);
    assert |savedCode.Keys| == |savedCode|;
  }

  /** While aligned, every row's label names an entry of the dictionary. */
  lemma AlignedRowStored(savedCode: map<string, string>, keys: seq<string>, row: nat)
    requires KeysAligned(savedCode, keys) && row < |keys|
    ensures keys[row] in savedCode
  {
    assert keys[row] in keys;
  }

  /** `keys` without its element at `row`. */
  function RemoveAt(keys: seq<string>, row: nat): (r: seq<string>)
    requires row < |keys|
    ensures |r| == |keys| - 1
    ensures forall i | 0 <= i < row :: r[i] == keys[i]
    ensures forall i | row <= i < |r| :: r[i] == keys[i + 1]
  {
    keys[..row] + keys[row + 1..]
  }

  /**
   * Deleting row `row` from both the dictionary and the label list keeps them
   * aligned.
   */
  lemma DeleteAtKeepsAlignment(savedCode: map<string, string>, keys: seq<string>, row: nat)
    requires KeysAligned(savedCode, keys) && row < |keys|
    ensures KeysAligned(savedCode - {keys[row]}, RemoveAt(keys, row))
  {
    var r := RemoveAt(keys, row);
    forall i, j | 0 <= i < j < |r| ensures Less(r[i], r[j]) {
      var i', j' := if i < row then i else i + 1, if j < row then j else j + 1;
      assert r[i] == keys[i'] && r[j] == keys[j'];
    }
    forall k ensures k in r <==> k in savedCode - {keys[row]} {
      if k in r {
        var i :| 0 <= i < |r| && r[i] == k;
        var i' := if i < row then i else i + 1;
        assert keys[i'] == k && i' != row;
        LessIrreflexive(k);
      }
      if k in savedCode - {keys[row]} {
        var i :| 0 <= i < |keys| && keys[i] == k;
        assert i != row;
        assert r[if i < row then i else i - 1] == k;
      }
    }
  }

  /**
   * Deleting from the dictionary alone breaks the alignment: the deleted key
   * is still listed and there is one label more than there are entries.
   */
  lemma DeleteBreaksAlignment(savedCode: map<string, string>, keys: seq<string>, row: nat)
    requires KeysAligned(savedCode, keys) && row < |keys|
    ensures !KeysAligned(savedCode - {keys[row]}, keys)
    ensures keys[row] !in savedCode - {keys[row]}
    ensures |savedCode - {keys[row]}| == |keys| - 1
  {
    AlignedRowStored(savedCode, keys, row);
    AlignedLength(savedCode, keys);
    assert keys[row] in keys;
  }
}
