/** One spelling per case-insensitive value: the dropdowns' maps from a folded key to the least spelling. */
module Spellings {
  import opened Folds
  import Text

  type Fold = string -> string

  /** Some text that is not blank has the key. */
  predicate HasKey(texts: seq<string>, key: string, fold: Fold) {
    exists i :: 0 <= i < |texts| && texts[i] != "" && fold(texts[i]) == key
  }

  /** The spelling occurs under the key, and none that does is less. */
  predicate IsLeastSpelling(texts: seq<string>, spelling: string, key: string, fold: Fold) {
    && (exists i :: 0 <= i < |texts| && texts[i] == spelling)
    && spelling != "" && fold(spelling) == key
    && (forall i :: 0 <= i < |texts| && texts[i] != "" && fold(texts[i]) == key ==> !Text.Less(texts[i], spelling))
  }

  ghost predicate Spelled(texts: seq<string>, values: map<string, string>, fold: Fold) {
    && (forall key :: key in values <==> HasKey(texts, key, fold))
    && (forall key :: key in values ==> IsLeastSpelling(texts, values[key], key, fold))
  }

  /** keep: records a trimmed text unless it is blank. */
  method Keep(values: map<string, string>, trimmed: string, fold: Fold, ghost texts: seq<string>)
    returns (values': map<string, string>)
    requires Spelled(texts, values, fold)
    ensures Spelled(texts + [trimmed], values', fold)
  {
    values' := values;
    if trimmed != "" {
      var key := fold(trimmed);
      if key !in values || Text.Less(trimmed, values[key]) {
        values' := values[key := trimmed];
      }
    }
    forall key
      ensures HasKey(texts + [trimmed], key, fold)
         <==> HasKey(texts, key, fold) || (trimmed != "" && fold(trimmed) == key)
    {
      KeyOneMore(texts, trimmed, key, fold);
    }
    forall key | key in values' ensures IsLeastSpelling(texts + [trimmed], values'[key], key, fold) {
      LeastOneMore(texts, trimmed, key, fold, if key in values then values[key] else "", key in values);
    }
  }

  lemma KeyOneMore(texts: seq<string>, trimmed: string, key: string, fold: Fold)
    ensures HasKey(texts + [trimmed], key, fold)
      <==> HasKey(texts, key, fold) || (trimmed != "" && fold(trimmed) == key)
  {
    var more := texts + [trimmed];
    if i :| 0 <= i < |texts| && texts[i] != "" && fold(texts[i]) == key {
      assert more[i] != "" && fold(more[i]) == key;
    }
    if trimmed != "" && fold(trimmed) == key {
      assert more[|texts|] != "" && fold(more[|texts|]) == key;
    }
  }

  /** The least spelling of the key after one more text. */
  lemma LeastOneMore(texts: seq<string>, trimmed: string, key: string, fold: Fold, before: string, had: bool)
    requires had ==> IsLeastSpelling(texts, before, key, fold)
    requires !had ==> !HasKey(texts, key, fold)
    ensures had && (trimmed == "" || fold(trimmed) != key || !Text.Less(trimmed, before)) ==>
      IsLeastSpelling(texts + [trimmed], before, key, fold)
    ensures trimmed != "" && fold(trimmed) == key && (!had || Text.Less(trimmed, before)) ==>
      IsLeastSpelling(texts + [trimmed], trimmed, key, fold)
  {
    var more := texts + [trimmed];
    Text.LessIsATotalOrder(trimmed, trimmed);
    assert more[|texts|] == trimmed;
    if had {
      var i :| 0 <= i < |texts| && texts[i] == before;
      assert more[i] == before;
    }
    if had && Text.Less(trimmed, before) {
      forall i | 0 <= i < |texts| && texts[i] != "" && fold(texts[i]) == key ensures !Text.Less(texts[i], trimmed) {
        if Text.Less(texts[i], trimmed) {
          Text.LessIsTransitive(texts[i], trimmed, before);
        }
      }
    }
  }

  /** The values offered: one least spelling a key, in ascending order of the keys. */
  ghost predicate IsOffer(texts: seq<string>, offered: seq<string>, fold: Fold) {
    && (forall i :: 0 <= i < |offered| ==> IsLeastSpelling(texts, offered[i], fold(offered[i]), fold))
    && (forall i, j :: 0 <= i < j < |offered| ==> Text.Less(fold(offered[i]), fold(offered[j])))
    && (forall i :: 0 <= i < |texts| && texts[i] != "" ==> Offers(offered, fold(texts[i]), fold))
  }

  predicate Offers(offered: seq<string>, key: string, fold: Fold) {
    exists j :: 0 <= j < |offered| && fold(offered[j]) == key
  }

  /** The keys of a map, in whatever order they are ranged over. */
  method KeysOf<K, V>(values: map<K, V>) returns (keys: seq<K>)
    ensures Distinct(keys) && forall key :: key in keys <==> key in values
  {
    keys := [];
    var left := values.Keys;
    while left != {}
      invariant left <= values.Keys && Distinct(keys)
      invariant forall key :: key in keys <==> key in values && key !in left
      decreases |left|
    {
      var key :| key in left;
      keys := keys + [key];
      left := left - {key};
    }
  }

  predicate Ascending(a: string, b: string) {
    Text.Less(a, b)
  }

  lemma AscendingIsAnOrder()
    ensures IsOrder(Ascending)
  {
    Text.LessIsAnOrder();
  }

  /** sortedValues */
  method SortedValues(values: map<string, string>, fold: Fold, ghost texts: seq<string>) returns (offered: seq<string>)
    requires Spelled(texts, values, fold)
    ensures IsOffer(texts, offered, fold)
    ensures forall i, j :: 0 <= i < j < |offered| ==> Text.Less(fold(offered[i]), fold(offered[j]))
  {
    var unsorted := KeysOf(values);
    AscendingIsAnOrder();
    var keys := SortSlice(unsorted, Ascending);
    SortedKeys(unsorted, keys, values);
    offered := seq(|keys|, i requires 0 <= i < |keys| && keys[i] in values => values[keys[i]]);
    SortedSpellings(texts, values, keys, offered, fold);
  }

  lemma SortedKeys(unsorted: seq<string>, keys: seq<string>, values: map<string, string>)
    requires multiset(keys) == multiset(unsorted) && SortedBy(keys, Ascending)
    requires Distinct(unsorted) && forall key :: key in unsorted <==> key in values
    ensures forall key :: key in keys <==> key in values
    ensures forall i, j :: 0 <= i < j < |keys| ==> Text.Less(keys[i], keys[j])
  {
    StaysDistinct(unsorted, keys, (key: string) => key);
    forall key ensures key in keys <==> key in values {
      SameElements(unsorted, keys, key);
    }
    forall i, j | 0 <= i < j < |keys| ensures Text.Less(keys[i], keys[j]) {
      Text.LessIsATotalOrder(keys[i], keys[j]);
    }
  }

  lemma SortedSpellings(
    texts: seq<string>, values: map<string, string>, keys: seq<string>, offered: seq<string>, fold: Fold)
    requires Spelled(texts, values, fold) && |offered| == |keys|
    requires forall key :: key in keys <==> key in values
    requires forall i, j :: 0 <= i < j < |keys| ==> Text.Less(keys[i], keys[j])
    requires forall i :: 0 <= i < |keys| ==> keys[i] in values && offered[i] == values[keys[i]]
    ensures IsOffer(texts, offered, fold)
  {
    forall i | 0 <= i < |keys| ensures fold(offered[i]) == keys[i] {
      assert IsLeastSpelling(texts, values[keys[i]], keys[i], fold);
    }
    forall i | 0 <= i < |texts| && texts[i] != "" ensures Offers(offered, fold(texts[i]), fold) {
      assert HasKey(texts, fold(texts[i]), fold);
      var j :| 0 <= j < |keys| && keys[j] == fold(texts[i]);
      assert fold(offered[j]) == keys[j];
    }
  }
}
