/** The error values that cross the backend and the frontend, with Go's `errors.Is` and `errors.As`. */
module Errors {
  import opened Wrappers

  datatype Error =
    | NotFound                                // the backend's "no hardware found"
    | InstanceNotFound                        // the frontend's "instance not found"
    | MultipleHardware
    | Other(message: string)
    | Wrapped(message: string, inner: Error)  // an error that can be unwrapped
    | Http(statusCode: nat, inner: Error)     // carries a status code and cannot be unwrapped

  function Is(err: Error, target: Error): bool {
    err == target || (err.Wrapped? && Is(err.inner, target))
  }

  function StatusOf(err: Error): Option<nat> {
    match err
    case Http(code, _) => Some(code)
    case Wrapped(_, inner) => StatusOf(inner)
    case _ => None
  }

  /** The error inside, wrapped once for each message, outermost first. */
  function WrapAll(messages: seq<string>, inner: Error): Error {
    if messages == [] then inner else Wrapped(messages[0], WrapAll(messages[1..], inner))
  }

  lemma {:induction false} IsUnwraps(err: Error, target: Error)
    ensures Is(err, target) ==> exists messages :: err == WrapAll(messages, target)
    decreases err
  {
    if err == target {
      assert err == WrapAll([], target);
    } else if err.Wrapped? && Is(err.inner, target) {
      IsUnwraps(err.inner, target);
      var messages :| err.inner == WrapAll(messages, target);
      assert ([err.message] + messages)[1..] == messages;
      assert err == WrapAll([err.message] + messages, target);
    }
  }

  lemma {:induction false} WrappedIs(messages: seq<string>, target: Error)
    ensures Is(WrapAll(messages, target), target)
  {
    if messages == [] {
    } else {
      WrappedIs(messages[1..], target);
    }
  }

  /** One error is another if and only if it is that error wrapped any number of times. */
  lemma IsExactly(err: Error, target: Error)
    ensures Is(err, target) <==> exists messages :: err == WrapAll(messages, target)
  {
    IsUnwraps(err, target);
    forall messages | err == WrapAll(messages, target) ensures Is(err, target) {
      WrappedIs(messages, target);
    }
  }

  lemma {:induction false} StatusUnwraps(err: Error, code: nat)
    ensures StatusOf(err) == Some(code) ==> exists messages, inner :: err == WrapAll(messages, Http(code, inner))
    decreases err
  {
    match err
    case Http(_, inner) =>
      assert err == WrapAll([], Http(err.statusCode, inner));
    case Wrapped(message, next) =>
      StatusUnwraps(next, code);
      if StatusOf(next) == Some(code) {
        var messages, inner :| next == WrapAll(messages, Http(code, inner));
        assert ([message] + messages)[1..] == messages;
        assert err == WrapAll([message] + messages, Http(code, inner));
      }
    case _ =>
  }

  lemma {:induction false} WrappedStatus(messages: seq<string>, code: nat, inner: Error)
    ensures StatusOf(WrapAll(messages, Http(code, inner))) == Some(code)
  {
    if messages == [] {
    } else {
      WrappedStatus(messages[1..], code, inner);
    }
  }

  /** An error carries a status if and only if it is an error with that status wrapped any number of times. */
  lemma StatusExactly(err: Error, code: nat)
    ensures StatusOf(err) == Some(code) <==> exists messages, inner :: err == WrapAll(messages, Http(code, inner))
  {
    StatusUnwraps(err, code);
    forall messages, inner | err == WrapAll(messages, Http(code, inner)) ensures StatusOf(err) == Some(code) {
      WrappedStatus(messages, code, inner);
    }
  }
}
