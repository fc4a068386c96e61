/**
 The subset of Python's printf-style `template % args` used by the program:
 `%s` directives (each consumes the next argument, a string) and `%%`.
 A single right operand that is not a tuple counts as one argument.
 */
module PercentFormat {
  import opened Wrappers

  /** Why formatting raises: the first two are Python's `TypeError`s, the
      last two its `ValueError`s. */
  datatype FormatError =
    | NotEnoughArguments
    | NotAllArgumentsConverted
    | UnsupportedFormatCharacter(c: char)
    | IncompleteFormat

  /** Every `%` starts a `%s` or `%%` directive. */
  predicate WellFormed(template: string)
    decreases |template|
  {
    if |template| == 0 then true
    else if template[0] != '%' then WellFormed(template[1..])
    else |template| >= 2 && template[1] in {'s', '%'} && WellFormed(template[2..])
  }

  /** The number of `%s` directives of a well-formed template. */
  function Placeholders(template: string): nat
    decreases |template|
  {
    if |template| == 0 then 0
    else if template[0] != '%' || |template| == 1 then Placeholders(template[1..])
    else (if template[1] == 's' then 1 else 0) + Placeholders(template[2..])
  }

  function Prepend(p: string, r: Result<string, FormatError>): Result<string, FormatError> {
    match r
    case Success(s) => Success(p + s)
    case Failure(e) => Failure(e)
  }

  /** `template % tuple(args)`, scanning the template left to right and
      raising at the first problem met. A well-formed template succeeds
      exactly when it has one `%s` per argument; with too few arguments it
      raises "not enough arguments for format string". */
  function Format(template: string, args: seq<string>): (r: Result<string, FormatError>)
    ensures WellFormed(template) ==> (r.Success? <==> Placeholders(template) == |args|)
    ensures WellFormed(template) && Placeholders(template) > |args| ==> r == Failure(NotEnoughArguments)
    decreases |template|
  {
    if |template| == 0 then
      if |args| == 0 then Success("") else Failure(NotAllArgumentsConverted)
    else if template[0] != '%' then
      Prepend([template[0]], Format(template[1..], args))
    else if |template| == 1 then
      Failure(IncompleteFormat)
    else if template[1] == '%' then
      Prepend("%", Format(template[2..], args))
    else if template[1] == 's' then
      if |args| == 0 then Failure(NotEnoughArguments)
      else Prepend(args[0], Format(template[2..], args[1..]))
    else
      Failure(UnsupportedFormatCharacter(template[1]))
  }

  lemma PrependPrepend(a: string, b: string, r: Result<string, FormatError>)
    ensures Prepend(a, Prepend(b, r)) == Prepend(a + b, r)
  {
    if r.Success? {
      assert a + (b + r.value) == (a + b) + r.value;
    }
  }

  /** A chunk without `%` is copied through unchanged. */
  lemma {:induction false} FormatLiteral(p: string, rest: string, args: seq<string>)
    requires forall i :: 0 <= i < |p| ==> p[i] != '%'
    ensures Format(p + rest, args) == Prepend(p, Format(rest, args))
    decreases |p|
  {
    if |p| > 0 {
      assert (p + rest)[0] == p[0];
      assert (p + rest)[1..] == p[1..] + rest;
      FormatLiteral(p[1..], rest, args);
      PrependPrepend([p[0]], p[1..], Format(rest, args));
      assert [p[0]] + p[1..] == p;
    } else {
      assert p + rest == rest;
      var r := Format(rest, args);
      if r.Success? {
        assert p + r.value == r.value;
      }
    }
  }

  /** A `%s` directive consumes the next argument, or raises when none is left. */
  lemma FormatDirective(rest: string, args: seq<string>)
    ensures Format("%s" + rest, args)
         == if |args| == 0 then Failure(NotEnoughArguments) else Prepend(args[0], Format(rest, args[1..]))
  {
    assert ("%s" + rest)[2..] == rest;
  }
}
