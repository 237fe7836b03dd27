/** Open modes (fsal_openflags_t) as sets of flags; FSAL_O_CLOSED is the empty set. */
module OpenFlags {

  datatype OpenFlag =
    | Read | Write | Sync | Reclaim | ReopenFlag | Any | Trunc
    | DenyRead | DenyWrite | DenyWriteMand

  type OpenMode = set<OpenFlag>

  const CLOSED: OpenMode := {}

  /** Is a descriptor opened in mode `fd` unfit for a caller who wants `wanted`? */
  predicate NotOpenUsable(fd: OpenMode, wanted: OpenMode) {
    (wanted != {Any} || fd == CLOSED) && fd * wanted != wanted
  }

  /** A descriptor serves a caller when it has every flag wanted, or when any open one will do. */
  predicate Serves(fd: OpenMode, wanted: OpenMode) {
    wanted <= fd || (wanted == {Any} && fd != {})
  }

  lemma NotUsableIff(fd: OpenMode, wanted: OpenMode)
    ensures NotOpenUsable(fd, wanted) <==> !Serves(fd, wanted)
  {
    assert wanted <= fd <==> fd * wanted == wanted;
  }
}
