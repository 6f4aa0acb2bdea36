/**
 The change detector of the analyser: it decides whether a cached report is
 still valid by comparing the file-name -> content-hash map stored with the
 report against the hashes of the files currently in the directory. Hashing
 and directory listing are not modelled: the current hashes are a parameter.
 */
module ChangeGate {
  import opened Common

  /** File name -> hex digest of the file's content. */
  type Hashes = map<string, string>

  /**
   First compares the two sets of file names; when they agree, walks the
   cached entries and reports a change at the first file whose current hash
   differs from the cached one. No change exactly when the maps are equal.
   */
  method HasFilesChanged(cached: Hashes, current: Hashes) returns (changed: bool)
    ensures changed <==> cached != current
    ensures changed <==> (cached.Keys != current.Keys
                          || exists f :: f in cached && Get(current, f) != Some(cached[f]))
  {
    if cached.Keys != current.Keys {
      return true;
    }
    var pending := cached.Keys;
    while pending != {}
      invariant pending <= cached.Keys
      invariant forall f :: f in cached && f !in pending ==> f in current && current[f] == cached[f]
      decreases pending
    {
      var f :| f in pending;
      if Get(current, f) != Some(cached[f]) {
        return true;
      }
      pending := pending - {f};
    }
    return false;
  }
}
