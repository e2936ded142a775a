/**
  The per-resource version store (the `text-history` library). Its own code is not part
  of this model; this class realises the contract the middleware relies on. How an id is
  derived from a text (`idOf`, an md5 digest in lib/server.js:32) and how patches are
  computed (`diff`) are parameters.
*/
module TextHistory {
  import opened Wrappers
  import opened DiffMatchPatch

  class History {
    const idOf: string -> string
    const diff: Differ
    /** Every version ever added, by id. */
    var versions: map<string, string>
    /** The most recently added text; `None` before the first `AddVersion`. */
    var lastVersion: Option<string>

    /**
      Each stored text sits under its own id, and the latest text is always one of the
      stored versions.
    */
    ghost predicate Valid()
      reads this
    {
      && (forall id | id in versions :: idOf(versions[id]) == id)
      && (lastVersion.Some? ==>
            idOf(lastVersion.value) in versions && versions[idOf(lastVersion.value)] == lastVersion.value)
    }

    constructor (idOf: string -> string, diff: Differ)
      ensures Valid()
      ensures this.idOf == idOf && this.diff == diff
      ensures versions == map[] && lastVersion == None
    {
      this.idOf := idOf;
      this.diff := diff;
      versions := map[];
      lastVersion := None;
    }

    /**
      `addVersion(text)`: records `text` as the newest version and returns its id. Ids
      issued before stay known; an earlier text with the same id is replaced by `text`.
    */
    method AddVersion(content: string) returns (id: string)
      requires Valid()
      modifies this
      ensures Valid()
      ensures id == idOf(content)
      ensures versions == old(versions)[id := content]
      ensures lastVersion == Some(content)
    {
      id := idOf(content);
      versions := versions[id := content];
      lastVersion := Some(content);
    }
  }

  /**
    `history.getPatches(id)` for a history holding `versions` whose latest text is
    `latest`: the patches from the version named `id` to the latest one; none exactly
    when that version is the latest text, given an engine that meets its contract.
    (`history.hasVersion(id)` is `id in versions`.)
  */
  function GetPatches(diff: Differ, versions: map<string, string>, latest: string, id: string): (patches: seq<Patch>)
    requires id in versions
    ensures EmptyIffIdentical(diff) ==> (patches == [] <==> versions[id] == latest)
  {
    diff(versions[id], latest)
  }

}
