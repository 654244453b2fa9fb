/**
 * The key/value view of `NSKeyedArchiver` and `NSKeyedUnarchiver`: an archive
 * maps keys to archived objects. The byte format of the archive is not
 * modelled.
 */
module KeyedArchive {
  import opened Wrappers
  import opened Payloads

  /** An archived object: an `NSString` or an `NSData`. */
  datatype Value = Str(s: string) | Data(blob: Blob)

  type Archive = map<string, Value>

  /**
   * An archiver writing into its own output buffer. Objects are collected by
   * `EncodeObject` and reach the buffer when `FinishEncoding` is called;
   * nothing may be encoded after that.
   */
  class Archiver {
    var pending: Archive
    var finished: bool
    var output: Archive

    constructor ()
      ensures pending == map[] && !finished && output == map[]
    {
      pending := map[];
      finished := false;
      output := map[];
    }

    /** `encodeObject(_:forKey:)`: a later object under the same key replaces the earlier. */
    method EncodeObject(obj: Value, key: string)
      requires !finished
      modifies this
      ensures pending == old(pending)[key := obj]
      ensures !finished && output == old(output)
    {
      pending := pending[key := obj];
    }

    /** `finishEncoding()`: the collected objects become the archive. */
    method FinishEncoding()
      requires !finished
      modifies this
      ensures finished && output == pending && pending == old(pending)
    {
      finished := true;
      output := pending;
    }
  }

  /** `decodeObjectForKey(_:)`: the object under `key`, or nil. */
  function DecodeObject(a: Archive, key: string): (r: Option<Value>)
    ensures r.Some? <==> key in a
    ensures r.Some? ==> a[key] == r.value
  {
    if key in a then Some(a[key]) else None
  }

  /** `decodeObjectForKey(_:) as? String`: the string under `key`, or nil when absent or not a string. */
  function DecodeString(a: Archive, key: string): (r: Option<string>)
    ensures r.Some? <==> key in a && a[key].Str?
    ensures r.Some? ==> a[key] == Str(r.value)
  {
    match DecodeObject(a, key)
    case Some(Str(s)) => Some(s)
    case _ => None
  }

}
