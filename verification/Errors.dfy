/**
 Application errors: sentinels, the copies derived from them, and the chain walks
 that decide what a client sees.

 An error object is compared by identity, as sentinels are; its fields never
 change once a With call has returned it.
 */
module Errors {
  import opened Wrappers

  datatype Code =
    | InvalidInput | Unauthorized | Forbidden | NotFound | Conflict
    | TooManyRequests | Timeout | Unavailable | Internal | Other(name: string)

  /** Any error value: an application error, a wrapper around another error, or a leaf. */
  datatype Err =
    | Nil
    | App(e: Error)
    | Wrapped(text: string, inner: Err)
    | DeadlineExceeded
    | Canceled
    | Plain(text: string)

  class Error {
    const code: Code
    const message: string
    const fields: map<string, string>
    const cause: Err
    const base: Error?
    /** How far the chain below reaches; a cause exists before the error that carries it. */
    ghost const rank: nat

    constructor (code: Code, message: string, fields: map<string, string>, cause: Err, base: Error?)
      ensures this.code == code && this.message == message && this.fields == fields && this.cause == cause
              && this.base == base
      ensures rank == Rank(cause) + 1
    {
      this.code, this.message, this.fields, this.cause, this.base := code, message, fields, cause, base;
      this.rank := Rank(cause) + 1;
    }

    /** What a copy of this error derives from. */
    function Origin(): (r: Error)
      ensures base == null ==> r == this
      ensures base != null ==> r == base
    {
      if base == null then this else base
    }

    method WithCause(cause: Err) returns (c: Error)
      ensures fresh(c) && c.Derives(this) && c.cause == cause && c.message == message && c.fields == fields
    {
      c := new Error(code, message, fields, cause, Origin());
    }

    method WithFields(fields: map<string, string>) returns (c: Error)
      ensures fresh(c) && c.Derives(this) && c.cause == cause && c.message == message && c.fields == fields
    {
      c := new Error(code, message, fields, cause, Origin());
    }

    method WithMessage(message: string) returns (c: Error)
      ensures fresh(c) && c.Derives(this) && c.cause == cause && c.message == message && c.fields == fields
    {
      c := new Error(code, message, fields, cause, Origin());
    }

    ghost predicate Derives(e: Error) {
      code == e.code && base == e.Origin() && Rank(cause) < rank
    }
  }

  ghost function Rank(err: Err): nat {
    match err
    case App(e) => e.rank
    case Wrapped(_, inner) => Rank(inner) + 1
    case _ => 0
  }

  /** The chain of causes ends. */
  ghost predicate Grounded(err: Err)
    decreases Rank(err)
  {
    match err
    case App(e) => Rank(e.cause) < e.rank && Grounded(e.cause)
    case Wrapped(_, inner) => Grounded(inner)
    case _ => true
  }

  // ----- Chain walks -----------------------------------------------------

  predicate IsTarget(e: Error, target: Error) {
    e == target || (e.base != null && e.base == target)
  }

  /** errors.Is against a sentinel. */
  predicate Is(err: Err, target: Error)
    requires Grounded(err)
    decreases Rank(err)
  {
    match err
    case App(e) => IsTarget(e, target) || Is(e.cause, target)
    case Wrapped(_, inner) => Is(inner, target)
    case _ => false
  }

  /** errors.Is against a context error. */
  predicate IsLeaf(err: Err, leaf: Err)
    requires Grounded(err)
    decreases Rank(err)
  {
    match err
    case App(e) => IsLeaf(e.cause, leaf)
    case Wrapped(_, inner) => IsLeaf(inner, leaf)
    case _ => err == leaf && err != Nil
  }

  function From(err: Err): Option<Error>
    requires Grounded(err)
    decreases Rank(err)
  {
    match err
    case App(e) => Some(e)
    case Wrapped(_, inner) => From(inner)
    case _ => None
  }

  function StatusForCode(c: Code): int {
    match c
    case InvalidInput => 400
    case Unauthorized => 401
    case Forbidden => 403
    case NotFound => 404
    case Conflict => 409
    case TooManyRequests => 429
    case Timeout => 504
    case Unavailable => 503
    case Internal => 500
    case Other(_) => 500
  }

  function HttpStatus(err: Err): int
    requires Grounded(err)
  {
    var from := From(err);
    if from.Some? then StatusForCode(from.value.code)
    else if IsLeaf(err, DeadlineExceeded) then 504
    else if IsLeaf(err, Canceled) then 408
    else 500
  }

  function ClientMessage(err: Err): string
    requires Grounded(err)
  {
    var from := From(err);
    if from.Some? then from.value.message
    else if IsLeaf(err, DeadlineExceeded) then "Request timed out"
    else if IsLeaf(err, Canceled) then "Request was canceled"
    else "Internal server error"
  }

  // ----- What the walks mean ---------------------------------------------

  /** The nodes of the chain, outermost first. */
  ghost function Chain(err: Err): seq<Err>
    requires Grounded(err)
    decreases Rank(err)
  {
    match err
    case Nil => []
    case App(e) => [err] + Chain(e.cause)
    case Wrapped(_, inner) => [err] + Chain(inner)
    case _ => [err]
  }

  ghost predicate SomeNodeIs(c: seq<Err>, target: Error) {
    exists i :: 0 <= i < |c| && c[i].App? && IsTarget(c[i].e, target)
  }

  lemma SomeNodeOfCons(head: Err, rest: seq<Err>, target: Error)
    ensures SomeNodeIs([head] + rest, target) <==> (head.App? && IsTarget(head.e, target)) || SomeNodeIs(rest, target)
  {
    var c := [head] + rest;
    assert c[0] == head && forall i :: 0 <= i < |rest| ==> c[i + 1] == rest[i];
    assert forall i :: 0 < i < |c| ==> c[i] == rest[i - 1];
  }

  /** Is holds exactly when some node of the chain is the sentinel or was derived from it. */
  lemma {:induction false} IsMeansSomeNode(err: Err, target: Error)
    requires Grounded(err)
    ensures Is(err, target) <==> SomeNodeIs(Chain(err), target)
    decreases Rank(err)
  {
    match err
    case App(e) =>
      IsMeansSomeNode(e.cause, target);
      SomeNodeOfCons(err, Chain(e.cause), target);
    case Wrapped(_, inner) =>
      IsMeansSomeNode(inner, target);
      SomeNodeOfCons(err, Chain(inner), target);
    case _ =>
  }

  /** Position i holds an application error and no earlier one does. */
  ghost predicate FirstApp(c: seq<Err>, i: nat) {
    i < |c| && c[i].App? && forall j :: 0 <= j < i ==> !c[j].App?
  }

  /** From finds the outermost application error of the chain, and fails only when there is none. */
  lemma {:induction false} FromFindsOutermost(err: Err) returns (i: nat)
    requires Grounded(err)
    ensures From(err).Some? ==> FirstApp(Chain(err), i) && Chain(err)[i] == App(From(err).value)
    ensures From(err).None? ==> forall j :: 0 <= j < |Chain(err)| ==> !Chain(err)[j].App?
    decreases Rank(err)
  {
    i := 0;
    match err
    case App(e) =>
    case Wrapped(_, inner) =>
      var k := FromFindsOutermost(inner);
      i := k + 1;
    case _ =>
  }

  lemma FirstAppIsFrom(err: Err, i: nat)
    requires Grounded(err) && FirstApp(Chain(err), i)
    ensures From(err) == Some(Chain(err)[i].e)
  {
    var k := FromFindsOutermost(err);
    assert From(err).Some? ==> k == i;
  }

  /** The status a code is shown with, by its number; a code without one of its own is an internal error. */
  predicate Shown(code: Code, status: int) {
    && (code == InvalidInput <==> status == 400)
    && (code == Unauthorized <==> status == 401)
    && (code == Forbidden <==> status == 403)
    && (code == NotFound <==> status == 404)
    && (code == Conflict <==> status == 409)
    && (code == TooManyRequests <==> status == 429)
    && (code == Unavailable <==> status == 503)
    && (code == Timeout <==> status == 504)
    && (code == Internal || code.Other? <==> status == 500)
  }

  /**
   What a client sees is settled by the first application error of the chain:
   two chains whose first ones agree in code and message show the same, whatever
   stands before or below them.
   */
  lemma OnlyTheOutermostShows(err: Err, err': Err, i: nat, j: nat)
    requires Grounded(err) && Grounded(err') && FirstApp(Chain(err), i) && FirstApp(Chain(err'), j)
    requires Chain(err)[i].e.code == Chain(err')[j].e.code && Chain(err)[i].e.message == Chain(err')[j].e.message
    ensures HttpStatus(err) == HttpStatus(err') && Shown(Chain(err)[i].e.code, HttpStatus(err))
    ensures ClientMessage(err) == ClientMessage(err') == Chain(err)[i].e.message
  {
    FirstAppIsFrom(err, i);
    FirstAppIsFrom(err', j);
  }

  lemma {:induction false} IsLeafMeansSomeNode(err: Err, leaf: Err)
    requires Grounded(err) && (leaf == DeadlineExceeded || leaf == Canceled)
    ensures IsLeaf(err, leaf) <==> leaf in Chain(err)
    decreases Rank(err)
  {
    match err
    case App(e) => IsLeafMeansSomeNode(e.cause, leaf);
    case Wrapped(_, inner) => IsLeafMeansSomeNode(inner, leaf);
    case _ =>
  }

  /** Without an application error in the chain, the text of an error never shows: only whether time ran out. */
  lemma UnclassifiedIsOpaque(err: Err)
    requires Grounded(err) && forall i :: 0 <= i < |Chain(err)| ==> !Chain(err)[i].App?
    ensures (HttpStatus(err), ClientMessage(err))
            == if DeadlineExceeded in Chain(err) then (504, "Request timed out")
               else if Canceled in Chain(err) then (408, "Request was canceled")
               else (500, "Internal server error")
  {
    var i := FromFindsOutermost(err);
    IsLeafMeansSomeNode(err, DeadlineExceeded);
    IsLeafMeansSomeNode(err, Canceled);
  }

  // ----- Derivations -----------------------------------------------------

  datatype Change = SetCause(cause: Err) | SetFields(fields: map<string, string>) | SetMessage(message: string)

  /** The message after a sequence of changes: the last one set, or the original. */
  function LastMessage(changes: seq<Change>, original: string): string {
    if changes == [] then original
    else if changes[|changes| - 1].SetMessage? then changes[|changes| - 1].message
    else LastMessage(changes[..|changes| - 1], original)
  }

  function LastCause(changes: seq<Change>, original: Err): Err {
    if changes == [] then original
    else if changes[|changes| - 1].SetCause? then changes[|changes| - 1].cause
    else LastCause(changes[..|changes| - 1], original)
  }

  function LastFields(changes: seq<Change>, original: map<string, string>): map<string, string> {
    if changes == [] then original
    else if changes[|changes| - 1].SetFields? then changes[|changes| - 1].fields
    else LastFields(changes[..|changes| - 1], original)
  }

  /**
   Any number of With calls starting from a sentinel: the result derives from
   that sentinel and not from a copy in between, keeps its code, carries the
   last value given for everything else, and is recognised as the sentinel.
   */
  method Derive(sentinel: Error, changes: seq<Change>) returns (e: Error)
    requires sentinel.base == null && Grounded(App(sentinel))
    requires forall i :: 0 <= i < |changes| && changes[i].SetCause? ==> Grounded(changes[i].cause)
    ensures Grounded(App(e)) && e.code == sentinel.code && e.Origin() == sentinel
    ensures e.message == LastMessage(changes, sentinel.message)
    ensures e.fields == LastFields(changes, sentinel.fields)
    ensures e.cause == LastCause(changes, sentinel.cause)
    ensures Is(App(e), sentinel)
    ensures forall other: Error :: Is(App(e), other) <==> other == e || other == sentinel || Is(e.cause, other)
    ensures Shown(sentinel.code, HttpStatus(App(e))) && ClientMessage(App(e)) == e.message
  {
    e := sentinel;
    for i := 0 to |changes|
      invariant Grounded(App(e)) && e.code == sentinel.code && e.Origin() == sentinel
      invariant e.base == null ==> e == sentinel
      invariant e.message == LastMessage(changes[..i], sentinel.message)
      invariant e.fields == LastFields(changes[..i], sentinel.fields)
      invariant e.cause == LastCause(changes[..i], sentinel.cause)
    {
      assert changes[..i + 1][..i] == changes[..i];
      match changes[i]
      case SetCause(cause) => e := e.WithCause(cause);
      case SetFields(fields) => e := e.WithFields(fields);
      case SetMessage(message) => e := e.WithMessage(message);
    }
    assert changes[..|changes|] == changes;
  }
}
