/** Saving and loading the first allocator's schedule as JSON
    (`_convert_schedule_for_json` / `_restore_schedule_from_json`): the
    (department, batch, section) key becomes `"dept_batch_section"` and is
    split back on `_`. */
module GreedyJson {
  import opened Wrappers
  import opened Text
  import Seqs
  import Dicts
  import opened GreedyScheduler

  /** `f"{key[0]}_{key[1]}_{key[2]}"`. */
  function JsonKey(k: SectionKey): string {
    k.department + "_" + IntToString(k.batch) + "_" + k.sectionName
  }

  /** Why a stored key could not be turned back into a section key. */
  datatype RestoreError =
    | WrongPartCount(key: string)   // unpacking into three names fails
    | BadBatch(key: string)         // `int(batch)` fails

  /** `dept, batch, section = key.split('_')` followed by `int(batch)`. */
  function ParseKey(s: string): (r: Result<SectionKey, RestoreError>)
    ensures r.Ok? ==> Splittable(r.value)
    ensures r.Ok? ==> |Split(s, '_')| == 3 && PyParseInt(Split(s, '_')[1]) == Some(r.value.batch)
    ensures |Split(s, '_')| != 3 <==> r == Err(WrongPartCount(s))
  {
    var parts := Split(s, '_');
    if |parts| != 3 then Err(WrongPartCount(s))
    else match PyParseInt(parts[1])
      case None => Err(BadBatch(s))
      case Some(b) => Ok(SectionKey(parts[0], b, parts[2]))
  }

  /** The converted schedule: every entry re-keyed by its string form; a
      later key that renders like an earlier one overwrites it in place. */
  function ConvertForJson<V>(schedule: Dicts.Dict<SectionKey, V>): (r: Dicts.Dict<string, V>)
    ensures |r| <= |schedule|
  {
    if |schedule| == 0 then []
    else
      var n := |schedule| - 1;
      var prev := ConvertForJson(schedule[..n]);
      Dicts.Put(prev, JsonKey(schedule[n].0), schedule[n].1)
  }

  /** Every stored key parsed, in order; the error is that of the first key that fails. */
  function ParseKeys(keys: seq<string>): (r: Result<seq<SectionKey>, RestoreError>)
    ensures r.Ok? ==> |r.value| == |keys| && forall i :: 0 <= i < |keys| ==> ParseKey(keys[i]) == Ok(r.value[i])
  {
    if |keys| == 0 then Ok([])
    else
      var first := ParseKey(keys[0]);
      var rest := ParseKeys(keys[1..]);
      assert forall i :: 1 <= i < |keys| ==> keys[i] == keys[1..][i - 1];
      if first.Err? then Err(first.error)
      else if rest.Err? then Err(rest.error)
      else Ok([first.value] + rest.value)
  }

  /** The stored values, in order. */
  function Values<K, V>(d: Dicts.Dict<K, V>): (vs: seq<V>)
    ensures |vs| == |d|
    ensures forall i :: 0 <= i < |d| ==> vs[i] == d[i].1
  {
    seq(|d|, i requires 0 <= i < |d| => d[i].1)
  }

  /** `restored[key] = value` for each entry in order. */
  function Rebuild<V>(keys: seq<SectionKey>, values: seq<V>): (r: Dicts.Dict<SectionKey, V>)
    requires |keys| == |values|
    ensures |r| <= |values|
  {
    if |keys| == 0 then []
    else
      var n := |keys| - 1;
      Dicts.Put(Rebuild(keys[..n], values[..n]), keys[n], values[n])
  }

  /** The loaded schedule, or the error of the first key that fails. */
  function RestoreFromJson<V>(stored: Dicts.Dict<string, V>): (r: Result<Dicts.Dict<SectionKey, V>, RestoreError>)
    ensures r.Ok? ==> forall i :: 0 <= i < |stored| ==> ParseKey(stored[i].0).Ok?
  {
    var keys := ParseKeys(Dicts.Keys(stored));
    if keys.Err? then Err(keys.error) else Ok(Rebuild(keys.value, Values(stored)))
  }

  /** Loading succeeds when every stored key parses. */
  lemma {:induction false} ParseKeysSucceed(keys: seq<string>)
    requires forall i :: 0 <= i < |keys| ==> ParseKey(keys[i]).Ok?
    ensures ParseKeys(keys).Ok?
  {
    if |keys| > 0 {
      assert forall i :: 0 <= i < |keys| - 1 ==> keys[1..][i] == keys[i + 1];
      ParseKeysSucceed(keys[1..]);
    }
  }

  /** Loading succeeds exactly when every stored key splits into three
      parts whose middle one is an integer. */
  lemma RestoreSucceeds<V>(stored: Dicts.Dict<string, V>)
    ensures RestoreFromJson(stored).Ok? <==> forall i :: 0 <= i < |stored| ==> ParseKey(stored[i].0).Ok?
  {
    if forall i :: 0 <= i < |stored| ==> ParseKey(stored[i].0).Ok? {
      ParseKeysSucceed(Dicts.Keys(stored));
    }
  }

  /** Components free of the separator, so the string form can be split back. */
  predicate Splittable(k: SectionKey) {
    '_' !in k.department && '_' !in k.sectionName
  }

  lemma JsonKeyIsJoin(k: SectionKey)
    ensures JsonKey(k) == Join([k.department, IntToString(k.batch), k.sectionName], '_')
  {
    var parts := [k.department, IntToString(k.batch), k.sectionName];
    assert parts[1..][1..] == [k.sectionName];
    assert Join(parts[1..], '_') == IntToString(k.batch) + ['_'] + k.sectionName;
  }

  /** The string form of a splittable key parses back to the key. */
  lemma ParseJsonKey(k: SectionKey)
    requires Splittable(k)
    ensures ParseKey(JsonKey(k)) == Ok(k)
  {
    var parts := [k.department, IntToString(k.batch), k.sectionName];
    JsonKeyIsJoin(k);
    assert '_' !in IntToString(k.batch) by {
      var s := IntToString(k.batch);
      forall i | 0 <= i < |s| ensures s[i] != '_' {
        assert IsDigit(s[i]) || s[i] == '-';
      }
    }
    SplitJoin(parts, '_');
    IntStringRoundTrip(k.batch);
  }

  lemma JsonKeyInjective(a: SectionKey, b: SectionKey)
    requires Splittable(a) && Splittable(b)
    ensures JsonKey(a) == JsonKey(b) ==> a == b
  {
    ParseJsonKey(a);
    ParseJsonKey(b);
  }

  /** The converted schedule when no two keys render alike: the same entries in the same order. */
  function MapKeys<V>(d: Dicts.Dict<SectionKey, V>): (r: Dicts.Dict<string, V>)
    ensures |r| == |d|
    ensures forall i :: 0 <= i < |d| ==> r[i] == (JsonKey(d[i].0), d[i].1)
  {
    seq(|d|, i requires 0 <= i < |d| => (JsonKey(d[i].0), d[i].1))
  }

  predicate AllSplittable<V>(d: Dicts.Dict<SectionKey, V>) {
    forall i :: 0 <= i < |d| ==> Splittable(d[i].0)
  }

  /** A prefix of a well-formed schedule is well formed. */
  lemma PrefixWellFormed<V>(d: Dicts.Dict<SectionKey, V>, n: nat)
    requires n <= |d| && Dicts.DistinctKeys(d) && AllSplittable(d)
    ensures Dicts.DistinctKeys(d[..n]) && AllSplittable(d[..n])
  {
    DistinctKeysPrefix(d, n);
    forall i | 0 <= i < n ensures Splittable(d[..n][i].0) {
      assert d[..n][i] == d[i];
    }
  }

  /** The last key of a well-formed schedule is not among the earlier ones. */
  lemma LastKeyFresh<V>(d: Dicts.Dict<SectionKey, V>)
    requires |d| > 0 && Dicts.DistinctKeys(d)
    ensures d[|d| - 1].0 !in Dicts.Keys(d[..|d| - 1])
  {
    var n := |d| - 1;
    forall i | 0 <= i < n ensures Dicts.Keys(d[..n])[i] != d[n].0 {
      assert Dicts.Keys(d[..n])[i] == Dicts.Keys(d)[i];
      assert Dicts.Keys(d)[n] == d[n].0;
    }
  }

  /** ... and neither is its string form among the earlier string forms. */
  lemma LastJsonKeyFresh<V>(d: Dicts.Dict<SectionKey, V>)
    requires |d| > 0 && Dicts.DistinctKeys(d) && AllSplittable(d)
    ensures JsonKey(d[|d| - 1].0) !in Dicts.Keys(MapKeys(d[..|d| - 1]))
  {
    var n := |d| - 1;
    var ks := Dicts.Keys(MapKeys(d[..n]));
    LastKeyFresh(d);
    forall i | 0 <= i < n ensures ks[i] != JsonKey(d[n].0) {
      assert ks[i] == JsonKey(d[i].0);
      assert Dicts.Keys(d[..n])[i] == d[i].0;
      JsonKeyInjective(d[i].0, d[n].0);
    }
  }

  lemma {:induction false} ConvertIsMap<V>(d: Dicts.Dict<SectionKey, V>)
    requires Dicts.DistinctKeys(d) && AllSplittable(d)
    ensures ConvertForJson(d) == MapKeys(d)
  {
    if |d| > 0 {
      var n := |d| - 1;
      var p := d[..n];
      PrefixWellFormed(d, n);
      ConvertIsMap(p);
      assert ConvertForJson(d) == Dicts.Put(ConvertForJson(p), JsonKey(d[n].0), d[n].1);
      LastJsonKeyFresh(d);
      MapKeysSnoc(d);
    }
  }

  lemma MapKeysSnoc<V>(d: Dicts.Dict<SectionKey, V>)
    requires |d| > 0
    ensures MapKeys(d[..|d| - 1]) + [(JsonKey(d[|d| - 1].0), d[|d| - 1].1)] == MapKeys(d)
  {
    var n := |d| - 1;
    var a := MapKeys(d[..n]) + [(JsonKey(d[n].0), d[n].1)];
    var b := MapKeys(d);
    forall i | 0 <= i < |b| ensures a[i] == b[i] {
      if i < n {
        assert a[i] == MapKeys(d[..n])[i];
        assert d[..n][i] == d[i];
      }
    }
  }

  lemma {:induction false} RebuildEntries<V>(d: Dicts.Dict<SectionKey, V>)
    requires Dicts.DistinctKeys(d)
    ensures Rebuild(Dicts.Keys(d), Values(d)) == d
  {
    if |d| > 0 {
      var n := |d| - 1;
      DistinctKeysPrefix(d, n);
      RebuildEntries(d[..n]);
      RebuildStep(d);
      LastKeyFresh(d);
      SnocLast(d);
    }
  }

  lemma DistinctKeysPrefix<K, V>(d: Dicts.Dict<K, V>, n: nat)
    requires n <= |d| && Dicts.DistinctKeys(d)
    ensures Dicts.DistinctKeys(d[..n])
  {
    var ks := Dicts.Keys(d[..n]);
    forall i, j | 0 <= i < j < |ks| ensures ks[i] != ks[j] {
      assert ks[i] == Dicts.Keys(d)[i] && ks[j] == Dicts.Keys(d)[j];
    }
  }

  /** Rebuilding all entries is rebuilding all but the last, then storing the last. */
  lemma RebuildStep<V>(d: Dicts.Dict<SectionKey, V>)
    requires |d| > 0
    ensures var n := |d| - 1;
            Rebuild(Dicts.Keys(d), Values(d)) == Dicts.Put(Rebuild(Dicts.Keys(d[..n]), Values(d[..n])), d[n].0, d[n].1)
  {
    var n := |d| - 1;
    var ks, vs := Dicts.Keys(d), Values(d);
    assert ks[..n] == Dicts.Keys(d[..n]);
    assert vs[..n] == Values(d[..n]);
  }

  lemma SnocLast<K, V>(d: Dicts.Dict<K, V>)
    requires |d| > 0
    ensures d[..|d| - 1] + [(d[|d| - 1].0, d[|d| - 1].1)] == d
  {
    var n := |d| - 1;
    assert (d[n].0, d[n].1) == d[n];
    assert d[..n] + [d[n]] == d;
  }

  lemma RestoreMap<V>(d: Dicts.Dict<SectionKey, V>)
    requires Dicts.DistinctKeys(d) && AllSplittable(d)
    ensures RestoreFromJson(MapKeys(d)) == Ok(d)
  {
    var m := MapKeys(d);
    var ks := Dicts.Keys(m);
    forall i | 0 <= i < |ks| ensures ParseKey(ks[i]) == Ok(d[i].0) {
      ParseJsonKey(d[i].0);
    }
    ParseKeysSucceed(ks);
    assert ParseKeys(ks).value == Dicts.Keys(d);
    assert Values(m) == Values(d);
    RebuildEntries(d);
  }

  /** Saving then loading gives back the schedule, provided departments and
      section names contain no `_` (the separator) and keys are distinct. */
  lemma JsonRoundTrip<V>(d: Dicts.Dict<SectionKey, V>)
    requires Dicts.DistinctKeys(d) && AllSplittable(d)
    ensures RestoreFromJson(ConvertForJson(d)) == Ok(d)
  {
    ConvertIsMap(d);
    RestoreMap(d);
  }

  /** Without the separator restriction two different sections can share a
      stored key, so one of them is lost on saving. */
  lemma SeparatorCollision()
    ensures JsonKey(SectionKey("CS", 1, "2_A")) == JsonKey(SectionKey("CS_1", 2, "A"))
  {
    assert IntToString(1) == "1";
    assert IntToString(2) == "2";
  }
}
