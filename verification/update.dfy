/**
 `updateFile` (build.go): decides whether a generated artefact (the
 noto-emoji checkout or the dictionary page) must be produced again, and
 deletes the old one first when an update is forced. The file system is
 replaced by the outcome of the status query and the decision records the
 deletion instead of performing it.
 */
module Update {

  /** What asking the file system about the path gave: the path is there,
      it is reported missing, or the query failed for another reason. */
  datatype Status = Present | NotExist | OtherError

  /** The source treats every answer except "does not exist" as existing. */
  predicate Exists(st: Status)
  {
    st != NotExist
  }

  /** The outcome of one call: whether the caller regenerates the artefact,
      and whether the old one was deleted. */
  datatype Decision = Decision(rebuild: bool, removed: bool)

  /** Whether the artefact is still in place after the call. */
  predicate PresentAfter(st: Status, d: Decision)
  {
    Exists(st) && !d.removed
  }

  function UpdateFile(update: bool, st: Status): (d: Decision)
    ensures d.rebuild <==> !PresentAfter(st, d)
    ensures d.removed ==> update && Exists(st)
    ensures update ==> d.rebuild
    ensures !update ==> !d.removed
  {
    var present := Exists(st);
    Decision(!present || update, present && update)
  }

  /** A forced update always ends with nothing in place and a rebuild. */
  lemma ForcedUpdate(st: Status)
    ensures !PresentAfter(st, UpdateFile(true, st))
    ensures UpdateFile(true, st).rebuild
    ensures UpdateFile(true, st).removed <==> Exists(st)
  {
  }

  /** Without a forced update nothing is deleted, and the artefact is
      rebuilt exactly when it is missing; a failed query counts as present,
      so it is not rebuilt. */
  lemma LazyUpdate(st: Status)
    ensures !UpdateFile(false, st).removed
    ensures UpdateFile(false, st).rebuild <==> st == NotExist
    ensures !UpdateFile(false, OtherError).rebuild
  {
  }
}
