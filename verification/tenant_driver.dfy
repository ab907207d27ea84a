/** The multi-tenant Postgres driver: a request context carries the current
    workspace id, and every statement sent with a context is preceded by
    `SET app.current_tenant='<id>'`, either in the same batch or as a
    separate statement when the query has parameters. The underlying
    connection is not modelled; the driver's output is the list of calls it
    makes to it. */
module TenantDriver {
  import opened Wrappers

  /** The context key the workspace is stored under. */
  const ContextKey: string := "::TENANT_ID::"

  const MissingWorkspace: string := "tenancy: unable to retrieve workspace context"

  /** A value stored in a context: the driver's `*workspaceContext`, or
      anything else another package stored. */
  datatype ContextValue = Workspace(id: string) | Other(description: string)

  /** `context.Context`, as the chain of `WithValue` layers over the background. */
  datatype Context = Background | WithValue(parent: Context, key: string, value: ContextValue)

  /** `ctx.Value(key)`: the innermost layer with that key. */
  function Value(ctx: Context, key: string): (r: Option<ContextValue>)
    ensures ctx.Background? ==> r == None
    ensures ctx.WithValue? && ctx.key == key ==> r == Some(ctx.value)
    ensures ctx.WithValue? && ctx.key != key ==> r == Value(ctx.parent, key)
  {
    match ctx
    case Background => None
    case WithValue(parent, k, v) => if k == key then Some(v) else Value(parent, key)
  }

  /** `WithID`. */
  function WithID(parent: Context, id: string): (ctx: Context)
    ensures Value(ctx, ContextKey) == Some(Workspace(id))
    ensures forall k :: k != ContextKey ==> Value(ctx, k) == Value(parent, k)
  {
    WithValue(parent, ContextKey, Workspace(id))
  }

  /** `fromContext`: the workspace id, or an error when the key is missing
      or holds something other than a workspace. */
  function FromContext(ctx: Context): (r: Result<string, string>)
    ensures r.Ok? <==> Value(ctx, ContextKey).Some? && Value(ctx, ContextKey).value.Workspace?
    ensures r.Ok? ==> Value(ctx, ContextKey) == Some(Workspace(r.value))
    ensures r.Err? ==> r.error == MissingWorkspace
  {
    match Value(ctx, ContextKey)
    case Some(Workspace(id)) => Ok(id)
    case _ => Err(MissingWorkspace)
  }

  /** The id attached last is the one read back. */
  lemma WithIDThenFromContext(parent: Context, id: string)
    ensures FromContext(WithID(parent, id)) == Ok(id)
  {
  }

  /** A context that never had a workspace attached yields the error. */
  lemma NoWorkspaceNoTenant(ctx: Context)
    requires Value(ctx, ContextKey).None?
    ensures FromContext(ctx) == Err(MissingWorkspace)
  {
  }

  /** Values stored under other keys do not hide the workspace. */
  lemma OtherKeysTransparent(ctx: Context, key: string, v: ContextValue)
    requires key != ContextKey
    ensures FromContext(WithValue(ctx, key, v)) == FromContext(ctx)
  {
  }

  // ---------------------------------------------------------------------
  // The `SET` statement.
  // ---------------------------------------------------------------------

  /** What one character of the id becomes inside the SQL literal. */
  function EscapeChar(c: char): (r: string)
    ensures c == '\'' ==> r == "''"
    ensures c != '\'' ==> r == [c]
  {
    if c == '\'' then "''" else [c]
  }

  /** The id with every single quote doubled. */
  function Escape(s: string): string {
    if |s| == 0 then "" else Escape(s[..|s| - 1]) + EscapeChar(s[|s| - 1])
  }

  /** Escaping distributes over concatenation. */
  lemma {:induction false} EscapeConcat(a: string, b: string)
    ensures Escape(a + b) == Escape(a) + Escape(b)
    decreases |b|
  {
    if |b| > 0 {
      var b' := b[..|b| - 1];
      assert (a + b)[..|a + b| - 1] == a + b';
      EscapeConcat(a, b');
    } else {
      assert a + b == a;
    }
  }

  lemma EscapeSingle(c: char)
    ensures Escape([c]) == EscapeChar(c)
  {
    assert [c][..0] == [];
  }

  /** Escaping from the front. */
  lemma {:induction false} EscapeCons(s: string)
    requires |s| > 0
    ensures Escape(s) == EscapeChar(s[0]) + Escape(s[1..])
  {
    EscapeConcat([s[0]], s[1..]);
    EscapeSingle(s[0]);
    assert s == [s[0]] + s[1..];
  }

  /** Each quote adds one character. */
  lemma {:induction false} EscapeLength(s: string)
    ensures |Escape(s)| == |s| + multiset(s)['\'']
  {
    if |s| > 0 {
      EscapeLength(s[..|s| - 1]);
      assert s == s[..|s| - 1] + [s[|s| - 1]];
    }
  }

  /** Reading an escaped literal body back: a doubled quote is one quote,
      a lone quote would end the literal and is rejected. */
  function Unescape(s: string): (r: Option<string>)
    decreases |s|
  {
    if |s| == 0 then Some("")
    else if s[0] == '\'' then
      if |s| >= 2 && s[1] == '\'' then
        match Unescape(s[2..])
        case None => None
        case Some(rest) => Some("'" + rest)
      else None
    else
      match Unescape(s[1..])
      case None => None
      case Some(rest) => Some([s[0]] + rest)
  }

  /** The escaped id reads back as the id: the literal cannot be closed early. */
  lemma {:induction false} UnescapeEscape(s: string)
    ensures Unescape(Escape(s)) == Some(s)
    decreases |s|
  {
    if |s| > 0 {
      EscapeCons(s);
      UnescapeEscape(s[1..]);
      var e := Escape(s);
      if s[0] == '\'' {
        assert e[2..] == Escape(s[1..]);
      } else {
        assert e[1..] == Escape(s[1..]);
      }
      assert s == [s[0]] + s[1..];
    }
  }

  /** Distinct workspaces give distinct statements. */
  lemma EscapeInjective(a: string, b: string)
    requires Escape(a) == Escape(b)
    ensures a == b
  {
    UnescapeEscape(a);
    UnescapeEscape(b);
  }

  const UsePrefix: string := "SET app.current_tenant='"

  /** The statement selecting workspace `id`. */
  function UseStmt(id: string): (s: string)
    ensures |s| == |UsePrefix| + |id| + multiset(id)['\''] + 1
    ensures s[..|UsePrefix|] == UsePrefix && s[|s| - 1] == '\''
    ensures Unescape(s[|UsePrefix|..|s| - 1]) == Some(id)
  {
    EscapeLength(id);
    UnescapeEscape(id);
    var s := UsePrefix + Escape(id) + "'";
    assert s[|UsePrefix|..|s| - 1] == Escape(id);
    s
  }

  /** `useStatement`: the escaping loop over a buffer twice the id's length. */
  method UseStatement(id: string) returns (s: string)
    ensures s == UseStmt(id)
  {
    var buf := new char[2 * |id|];
    var pos := 0;
    for i := 0 to |id|
      invariant 0 <= pos <= 2 * i
      invariant buf[..pos] == Escape(id[..i])
    {
      assert id[..i + 1][..i] == id[..i];
      if id[i] == '\'' {
        buf[pos] := '\'';
        buf[pos + 1] := '\'';
        pos := pos + 2;
      } else {
        buf[pos] := id[i];
        pos := pos + 1;
      }
    }
    assert id[..|id|] == id;
    s := UsePrefix + buf[..pos] + "'";
  }

  // ---------------------------------------------------------------------
  // Forwarding to the underlying connection.
  // ---------------------------------------------------------------------

  /** Which interface of the underlying connection is called. */
  datatype Kind = QueryKind | ExecKind

  /** A bound parameter (`driver.NamedValue`). */
  datatype Arg = Arg(ordinal: int, name: string, value: string)

  /** One call to the underlying connection. */
  datatype Call = Call(kind: Kind, query: string, args: seq<Arg>)

  /** The calls made, and the error returned without reaching the final
      call (`None`: the outcome is that of the last call). */
  datatype Dispatch = Dispatch(calls: seq<Call>, error: Option<string>)

  /** `QueryContext` (kind `QueryKind`) and `ExecContext` (kind `ExecKind`).
      `useError` is the failure of the separate `SET` call, when one is made. */
  function Forward(kind: Kind, ctx: Context, query: string, args: seq<Arg>, useError: Option<string>): (r: Dispatch)
    ensures FromContext(ctx).Err? ==> r == Dispatch([], Some(MissingWorkspace))
    ensures FromContext(ctx).Ok? && |args| == 0 ==>
      r == Dispatch([Call(kind, UseStmt(FromContext(ctx).value) + ";" + query, [])], None)
    ensures FromContext(ctx).Ok? && |args| > 0 ==>
      && |r.calls| >= 1
      && r.calls[0] == Call(kind, UseStmt(FromContext(ctx).value), [])
      && (useError.Some? ==> r == Dispatch([r.calls[0]], useError))
      && (useError.None? ==> r.error.None? && r.calls == [r.calls[0], Call(kind, query, args)])
  {
    match FromContext(ctx)
    case Err(e) => Dispatch([], Some(e))
    case Ok(id) =>
      var use := UseStmt(id);
      if |args| > 0 then
        if useError.Some? then Dispatch([Call(kind, use, [])], useError)
        else Dispatch([Call(kind, use, []), Call(kind, query, args)], None)
      else Dispatch([Call(kind, use + ";" + query, args)], None)
  }

  /** `Query` and `Exec` without a context are refused. */
  function Unsupported(kind: Kind): (r: Result<(), string>)
    ensures r.Err?
    ensures kind.QueryKind? ==> r.error == "driver.Queryer.Query not supported"
    ensures kind.ExecKind? ==> r.error == "driver.Execer.Exec not supported"
  {
    match kind
    case QueryKind => Err("driver.Queryer.Query not supported")
    case ExecKind => Err("driver.Execer.Exec not supported")
  }

  /** Tenant isolation: whenever the driver reaches the connection, its
      first call starts with the statement selecting the context's workspace. */
  lemma QueryRunsInContextTenant(kind: Kind, ctx: Context, query: string, args: seq<Arg>, useError: Option<string>)
    requires |Forward(kind, ctx, query, args, useError).calls| > 0
    ensures FromContext(ctx).Ok?
    ensures var call := Forward(kind, ctx, query, args, useError).calls[0];
      var use := UseStmt(FromContext(ctx).value);
      |use| <= |call.query| && call.query[..|use|] == use
  {
  }
}
