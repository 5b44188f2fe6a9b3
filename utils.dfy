/**
 * The option-merging helper of src/lib/utils.ts. A JavaScript object used as a
 * string-keyed record is a `Record`, a heap object whose `entries` the helper
 * updates in place; an options object is a map whose `None` values are keys that
 * are present but `undefined`.
 */
module Utils {
  import opened Wrappers

  /** A mutable string-keyed JavaScript object. */
  class Record<V> {
    var entries: map<string, V>

    constructor (entries: map<string, V>)
      ensures this.entries == entries
    {
      this.entries := entries;
    }
  }

  /** The keys of `options` whose value is defined. */
  function DefinedKeys<V>(options: map<string, Option<V>>): set<string>
  {
    set k | k in options && options[k].Some?
  }

  /**
   * The record `obj` becomes once every defined option value has been
   * copied into it.
   */
  function Merge<V>(obj: map<string, V>, options: map<string, Option<V>>): (r: map<string, V>)
    // the resulting key set is the old keys plus the defined option keys
    ensures r.Keys == obj.Keys + DefinedKeys(options)
    // a defined option value overrides
    ensures forall k :: k in options && options[k].Some? ==> r[k] == options[k].value
    // an undefined option value, or a key options does not have, leaves the entry alone
    ensures forall k :: k in obj && (k !in options || options[k].None?) ==> r[k] == obj[k]
  {
    map k | k in obj.Keys + DefinedKeys(options) ::
      if k in options && options[k].Some? then options[k].value else obj[k]
  }

  /** Applying the same options twice gives the record that applying them once gives. */
  lemma MergeIdempotent<V>(obj: map<string, V>, options: map<string, Option<V>>)
    ensures Merge(Merge(obj, options), options) == Merge(obj, options)
  {
  }

  /** Empty options leave a record unchanged. */
  lemma MergeEmpty<V>(obj: map<string, V>)
    ensures Merge(obj, map[]) == obj
  {
  }

  /** Merging one more option key: a defined value overwrites that key, an undefined one changes nothing. */
  lemma MergeStep<V>(obj: map<string, V>, processed: map<string, Option<V>>, key: string, value: Option<V>)
    requires key !in processed
    ensures Merge(obj, processed[key := value]) ==
      if value.Some? then Merge(obj, processed)[key := value.value] else Merge(obj, processed)
  {
  }

  /**
   * Copies every defined value of `options` into `obj`, key by key, and
   * returns the very same object.
   */
  method SetOptionValues<V>(options: map<string, Option<V>>, obj: Record<V>) returns (r: Record<V>)
    modifies obj
    ensures r == obj
    ensures obj.entries == Merge(old(obj.entries), options)
  {
    var keys := options.Keys;
    while keys != {}
      invariant keys <= options.Keys
      invariant obj.entries == Merge(old(obj.entries), options - keys)
      decreases keys
    {
      var key :| key in keys;
      assert options - (keys - {key}) == (options - keys)[key := options[key]];
      MergeStep(old(obj.entries), options - keys, key, options[key]);
      if options[key].Some? {
        obj.entries := obj.entries[key := options[key].value];
      }
      keys := keys - {key};
    }
    assert options - {} == options;
    r := obj;
  }
}
