/** Pages of a B-tree index and the checks made whenever one is read. The file is fixed:
    the caller holds a lock that keeps out every writer (the "readonly" mode). */
module BtreePage {
  import opened Integers
  import opened Outcomes
  import opened BtreeKey

  type BlockNumber = b: nat | b <= 0xFFFF_FFFF

  const P_NONE: BlockNumber := 0
  const INVALID_BLOCK: BlockNumber := 0xFFFF_FFFF

  /** An item of a page. On internal pages `link` is the downlink; in the high key of a
      half-dead leaf it is the top parent of the interrupted deletion. */
  datatype Tuple = Tuple(key: Key, link: BlockNumber)

  /** A page. Items are numbered from 0 here; the high key, which every page but the
      rightmost one of its level has, is item 0. */
  datatype Page = Page(
    meta: bool,
    leaf: bool,
    root: bool,
    deleted: bool,
    fullXid: bool,
    halfDead: bool,
    incompleteSplit: bool,
    garbage: bool,
    level: Uint32,
    prev: BlockNumber,
    next: BlockNumber,
    items: seq<Tuple>)

  /** A leaf page without items or siblings. */
  const BLANK := Page(false, true, false, false, false, false, false, false, 0, P_NONE, P_NONE, [])

  type File = f: seq<Page> | |f| <= 0xFFFF_FFFF

  datatype Error =
    | UnreadableBlock | InvalidPage | BadLinePointer
    | DeletedBlock | FellOffEnd | NotLeftmost | NotTrueRoot | SiblingDisagreement
    | WrongLevel | CircularChain | NoValidPage
    | WrongAttributeCount | HighKeyViolated | ItemOrderViolated | CrossPageOrderViolated
    | LowerBoundViolated | CannotTraverse | MissingDownlink
    | PivotMismatch | BeyondRightmostPivot | NoLowKey
    | Unfinished  // the bound on loop iterations ran out; not an error of the program

  predicate Rightmost(p: Page) {
    p.next == P_NONE
  }

  predicate Ignore(p: Page) {
    p.deleted || p.halfDead
  }

  /** Offset of the first item that is not the high key. */
  function FirstData(p: Page): nat {
    if Rightmost(p) then 0 else 1
  }

  predicate NegativeInfinity(p: Page, off: nat) {
    !p.leaf && off == FirstData(p)
  }

  function Item(p: Page, off: nat): Result<Tuple, Error> {
    if off < |p.items| then Success(p.items[off]) else Failure(BadLinePointer)
  }

  /** The sanity checks made on every page but the metapage. */
  predicate Sane(p: Page) {
    && !p.meta
    && (!p.deleted || p.fullXid ==> (p.leaf <==> p.level == 0))
    && (!p.leaf && !p.deleted ==> FirstData(p) < |p.items|)
    && (p.leaf && !p.deleted && !Rightmost(p) ==> 0 < |p.items|)
    && (!p.leaf ==> !p.halfDead && !p.garbage)
    && (p.fullXid ==> p.deleted)
    && !(p.deleted && p.halfDead)
  }

  function ReadPage(f: File, b: BlockNumber): (r: Result<Page, Error>)
    ensures r.Success? ==> b < |f| && r.value == f[b] && (b != P_NONE ==> Sane(f[b]))
  {
    if b >= |f| then Failure(UnreadableBlock)
    else if b == P_NONE then
      if f[b].meta then Success(f[b]) else Failure(InvalidPage)
    else if Sane(f[b]) then Success(f[b])
    else Failure(InvalidPage)
  }

  /** The keys of the real items of a page: neither the high key nor negative infinity. */
  function FirstReal(p: Page): nat {
    if p.leaf then FirstData(p) else FirstData(p) + 1
  }
}
