/** The operators of btree_gist, as strategies of a search. */
module GistOperators {

  datatype Strategy = LessEqual | Less | Equal | Greater | GreaterEqual | NotEqual | Other

  /** The operator that also accepts equality: internal entries are tested for it. */
  function OrEqual(strategy: Strategy): Strategy {
    match strategy
    case Less => LessEqual
    case Greater => GreaterEqual
    case _ => strategy
  }
}
