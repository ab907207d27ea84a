/** The application's sentinel errors and the HTTP status each one maps
    to. An error is a tree of wrappers whose leaves are sentinels or other
    errors; `errors.Is` searches the tree. `IsErrorCustom` and
    `ErrorStatusCode` walk the `customErrors` map, whose iteration order Go
    leaves unspecified, so the order is a parameter. */
module ErrorCodes {
  import opened Wrappers

  /** The seven sentinel errors. */
  datatype Sentinel =
    | InternalServer
    | AccountNotFound
    | AccountExists
    | BadRequest
    | TokenExpired
    | Unauthorized
    | InvalidCredentials

  /** An error value: a sentinel itself, a wrapper around another error
      (`fmt.Errorf("...%w", err)`), an error wrapping several at once
      (`errors.Join`, or `fmt.Errorf` with more than one `%w`), or an error
      from elsewhere. An error from elsewhere never matches a sentinel,
      even with the same text. */
  datatype Error =
    | SentinelError(sentinel: Sentinel)
    | Wrapped(msg: string, cause: Error)
    | Joined(causes: seq<Error>)
    | Plain(msg: string)

  const StatusBadRequest: int := 400
  const StatusUnauthorized: int := 401
  const StatusNotFound: int := 404
  const StatusInternalServerError: int := 500

  /** The `customErrors` table. */
  const CustomErrors: map<Sentinel, int> := map[
    InternalServer := StatusInternalServerError,
    AccountNotFound := StatusNotFound,
    AccountExists := StatusBadRequest,
    BadRequest := StatusBadRequest,
    TokenExpired := StatusUnauthorized,
    Unauthorized := StatusUnauthorized,
    InvalidCredentials := StatusUnauthorized
  ]

  /** Every sentinel is a key of the table. */
  lemma SentinelInTable(s: Sentinel)
    ensures s in CustomErrors
  {
    match s
    case InternalServer =>
    case AccountNotFound =>
    case AccountExists =>
    case BadRequest =>
    case TokenExpired =>
    case Unauthorized =>
    case InvalidCredentials =>
  }

  /** `errors.Is(err, target)` for a sentinel target: the error itself or
      anything it wraps, directly or through a join, is the target. */
  predicate Is(err: Error, target: Sentinel) {
    match err
    case SentinelError(s) => s == target
    case Wrapped(_, cause) => Is(cause, target)
    case Joined(causes) => exists i :: 0 <= i < |causes| && Is(causes[i], target)
    case Plain(_) => false
  }

  /** An error that wraps at most one error at every level. */
  predicate Chain(err: Error) {
    match err
    case Wrapped(_, cause) => Chain(cause)
    case Joined(_) => false
    case _ => true
  }

  /** The sentinel at the end of a chain, if any. */
  function Root(err: Error): (r: Option<Sentinel>)
    requires Chain(err)
    ensures forall s :: Is(err, s) <==> r == Some(s)
  {
    match err
    case SentinelError(s) => Some(s)
    case Wrapped(_, cause) => Root(cause)
    case Plain(_) => None
  }

  /** An order the map may be walked in: every key of the table comes up. */
  ghost predicate IsOrder(order: seq<Sentinel>) {
    forall s :: s in CustomErrors ==> s in order
  }

  /** The key a walk of the table in `order` stops at: the first one the
      error matches. */
  function FirstMatch(err: Error, order: seq<Sentinel>): (r: Option<Sentinel>)
    ensures r.Some? ==> r.value in order && Is(err, r.value)
    ensures r.None? <==> forall i :: 0 <= i < |order| ==> !Is(err, order[i])
    ensures r.Some? ==> exists i :: 0 <= i < |order| && order[i] == r.value && forall j :: 0 <= j < i ==> !Is(err, order[j])
  {
    if |order| == 0 then None
    else if Is(err, order[0]) then Some(order[0])
    else
      var r := FirstMatch(err, order[1..]);
      if r.Some? then
        var i :| 0 <= i < |order[1..]| && order[1..][i] == r.value && forall j :: 0 <= j < i ==> !Is(err, order[1..][j]);
        assert order[i + 1] == r.value && forall j :: 0 <= j < i + 1 ==> !Is(err, order[j]);
        r
      else
        assert forall i :: 1 <= i < |order| ==> order[i] == order[1..][i - 1];
        r
  }

  /** A walk over every key that finds none means the error matches no key. */
  lemma NoMatchNoKey(err: Error, order: seq<Sentinel>)
    ensures IsOrder(order) && FirstMatch(err, order).None? ==> forall s :: s in CustomErrors ==> !Is(err, s)
  {
    if IsOrder(order) && FirstMatch(err, order).None? {
      forall s | s in CustomErrors
        ensures !Is(err, s)
      {
        var i :| 0 <= i < |order| && order[i] == s;
      }
    }
  }

  /** `IsErrorCustom`: the walk finds a key the error matches. */
  function IsErrorCustom(err: Error, order: seq<Sentinel>): (b: bool)
    ensures IsOrder(order) ==> (b <==> exists s :: s in CustomErrors && Is(err, s))
  {
    NoMatchNoKey(err, order);
    var r := FirstMatch(err, order);
    if r.Some? then
      SentinelInTable(r.value);
      true
    else false
  }

  /** Every key the error matches has code `c`. */
  ghost predicate AllCodes(err: Error, c: int) {
    forall s :: s in CustomErrors && Is(err, s) ==> CustomErrors[s] == c
  }

  /** `ErrorStatusCode`: the code of the first key in `order` the error
      matches, or 500. */
  function ErrorStatusCode(err: Error, order: seq<Sentinel>): (code: int)
    ensures IsOrder(order) && IsErrorCustom(err, order) ==> exists s :: s in CustomErrors && Is(err, s) && code == CustomErrors[s]
    ensures IsOrder(order) && !IsErrorCustom(err, order) ==> code == StatusInternalServerError
    ensures IsOrder(order) && IsErrorCustom(err, order) ==> forall c :: AllCodes(err, c) ==> code == c
  {
    NoMatchNoKey(err, order);
    match FirstMatch(err, order)
    case Some(s) =>
      SentinelInTable(s);
      CustomErrors[s]
    case None => StatusInternalServerError
  }

  /** Each sentinel gets its code, whatever order the table is walked in. */
  lemma SentinelCodes(order: seq<Sentinel>)
    requires IsOrder(order)
    ensures ErrorStatusCode(SentinelError(InternalServer), order) == 500
    ensures ErrorStatusCode(SentinelError(AccountNotFound), order) == 404
    ensures ErrorStatusCode(SentinelError(AccountExists), order) == 400
    ensures ErrorStatusCode(SentinelError(BadRequest), order) == 400
    ensures ErrorStatusCode(SentinelError(TokenExpired), order) == 401
    ensures ErrorStatusCode(SentinelError(Unauthorized), order) == 401
    ensures ErrorStatusCode(SentinelError(InvalidCredentials), order) == 401
  {
    ChainCodeIgnoresOrder(SentinelError(InternalServer), order);
    ChainCodeIgnoresOrder(SentinelError(AccountNotFound), order);
    ChainCodeIgnoresOrder(SentinelError(AccountExists), order);
    ChainCodeIgnoresOrder(SentinelError(BadRequest), order);
    ChainCodeIgnoresOrder(SentinelError(TokenExpired), order);
    ChainCodeIgnoresOrder(SentinelError(Unauthorized), order);
    ChainCodeIgnoresOrder(SentinelError(InvalidCredentials), order);
  }

  /** Wrapping keeps both the classification and the code. */
  lemma {:induction false} WrappingPreservesStatus(msg: string, err: Error, order: seq<Sentinel>)
    ensures FirstMatch(Wrapped(msg, err), order) == FirstMatch(err, order)
    ensures IsErrorCustom(Wrapped(msg, err), order) == IsErrorCustom(err, order)
    ensures ErrorStatusCode(Wrapped(msg, err), order) == ErrorStatusCode(err, order)
  {
    if |order| > 0 {
      WrappingPreservesStatus(msg, err, order[1..]);
    }
  }

  /** On a chain the walk order does not matter: the error is custom
      exactly when the chain ends in a sentinel, and then it gets that
      sentinel's code; otherwise 500. */
  lemma ChainCodeIgnoresOrder(err: Error, order: seq<Sentinel>)
    requires Chain(err) && IsOrder(order)
    ensures IsErrorCustom(err, order) <==> Root(err).Some?
    ensures Root(err).Some? ==> ErrorStatusCode(err, order) == CustomErrors[Root(err).value]
    ensures Root(err).None? ==> ErrorStatusCode(err, order) == StatusInternalServerError
  {
    if Root(err).Some? {
      SentinelInTable(Root(err).value);
    }
  }

  /** An error joining two sentinels with different codes gets the code of
      whichever the walk meets first: 404 when the walk starts at
      `ErrAccountNotFound`, 400 when it starts at `ErrBadRequest`. Both
      walks are possible (`ListsEverySentinel`). */
  lemma JoinedCodeDependsOnOrder(o1: seq<Sentinel>, o2: seq<Sentinel>)
    requires |o1| > 0 && o1[0] == AccountNotFound
    requires |o2| > 0 && o2[0] == BadRequest
    ensures var err := Joined([SentinelError(AccountNotFound), SentinelError(BadRequest)]);
      && ErrorStatusCode(err, o1) == StatusNotFound
      && ErrorStatusCode(err, o2) == StatusBadRequest
  {
    var err := Joined([SentinelError(AccountNotFound), SentinelError(BadRequest)]);
    assert Is(err, AccountNotFound) by {
      assert Is(err.causes[0], AccountNotFound);
    }
    assert Is(err, BadRequest) by {
      assert Is(err.causes[1], BadRequest);
    }
    FirstKeyCode(err, o1);
    FirstKeyCode(err, o2);
  }

  /** When the error matches the first key walked, it gets that key's code. */
  lemma FirstKeyCode(err: Error, order: seq<Sentinel>)
    requires |order| > 0 && Is(err, order[0])
    ensures order[0] in CustomErrors && ErrorStatusCode(err, order) == CustomErrors[order[0]]
  {
    SentinelInTable(order[0]);
  }

  /** A sequence that lists all seven sentinels is a walk order of the table. */
  lemma ListsEverySentinel(order: seq<Sentinel>)
    requires InternalServer in order && AccountNotFound in order && AccountExists in order && BadRequest in order
    requires TokenExpired in order && Unauthorized in order && InvalidCredentials in order
    ensures IsOrder(order)
  {
    forall s | s in CustomErrors
      ensures s in order
    {
      match s
      case InternalServer =>
      case AccountNotFound =>
      case AccountExists =>
      case BadRequest =>
      case TokenExpired =>
      case Unauthorized =>
      case InvalidCredentials =>
    }
  }
}
