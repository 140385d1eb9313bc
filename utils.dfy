/** The client-side argument validators of the vectorizer.ai SDK
    (`vectorizer_ai/utils.py`). Each validator either returns `None` or
    raises at once; none of them has any other effect, so each is a function
    from its arguments to an `Outcome`. */
module Utils {
  import opened PyValues

  /** Why a validator raised `ValueError`. The message text is not modelled,
      only which check failed and on what. */
  datatype Rejection =
    | NoneProvided(names: seq<string>)
    | OutOfRange(value: Value, start: Value, end: Value)
    | NotAnOption(value: Value, options: seq<Value>)
    | BadHexColor(color: string)

  /** The exceptions a validator can raise. `TypeError` comes from Python's
      `<=` on values it cannot order. */
  datatype Exception = ValueError(reason: Rejection) | TypeError

  /** How a validator call ends: it returns (nothing), or it raises. */
  datatype Outcome = Returned | Raised(exception: Exception)

  // ---------------------------------------------------------------------
  // param_exists

  /** `param_exists(names, params)`: raises `ValueError` unless at least one
      of `params` is truthy. `names` only feeds the error message. */
  function ParamExists(names: seq<string>, params: seq<Value>): (r: Outcome)
    ensures r.Raised? <==> forall k :: 0 <= k < |params| ==> !Truthy(params[k])
    ensures r.Raised? ==> r.exception == ValueError(NoneProvided(names))
  {
    if !Any(params) then Raised(ValueError(NoneProvided(names))) else Returned
  }

  /** An empty `params` list always raises, since `any([])` is false. */
  lemma ParamExistsEmptyRaises(names: seq<string>)
    ensures ParamExists(names, []) == Raised(ValueError(NoneProvided(names)))
  {
  }

  /** One truthy parameter is enough, whatever the others are. */
  lemma ParamExistsOneTruthySuffices(names: seq<string>, params: seq<Value>, k: nat)
    requires k < |params| && Truthy(params[k])
    ensures ParamExists(names, params) == Returned
  {
  }

  /** Whether `param_exists` raises does not depend on `names`. */
  lemma ParamExistsIgnoresNames(names: seq<string>, names': seq<string>, params: seq<Value>)
    ensures ParamExists(names, params).Raised? == ParamExists(names', params).Raised?
  {
  }

  /** Adding parameters on either side never turns success into failure. */
  lemma ParamExistsMonotone(names: seq<string>, before: seq<Value>, params: seq<Value>, after: seq<Value>)
    requires ParamExists(names, params) == Returned
    ensures ParamExists(names, before + params + after) == Returned
  {
    var k :| 0 <= k < |params| && Truthy(params[k]);
    assert (before + params + after)[|before| + k] == params[k];
  }

  // ---------------------------------------------------------------------
  // validate_param

  /** The `options` argument of `validate_param`: a list, a tuple of any
      length, or some other object (a set, a string, ...). */
  datatype Options = List(items: seq<Value>) | Tuple(items: seq<Value>) | Other

  /** The shape `validate_param` reads as an inclusive range. */
  predicate IsRange(options: Options)
  {
    options.Tuple? && |options.items| == 2
  }

  /** `validate_param(param, options)`. A 2-tuple `(start, end)` is a range:
      a truthy `param` must satisfy `start <= param <= end`, and a falsy one
      is not compared at all. A list is a set of options: `param` must equal
      one of them. Any other `options` accepts every `param`. */
  function ValidateParam(param: Value, options: Options): (r: Outcome)
    ensures !IsRange(options) && !options.List? ==> r == Returned
    ensures IsRange(options) && !Truthy(param) ==> r == Returned
    ensures options.List? ==>
      (r.Raised? <==> forall k :: 0 <= k < |options.items| ==> !Equal(options.items[k], param))
    ensures r == Raised(TypeError) <==>
      IsRange(options) && Truthy(param) && ChainLessEq(options.items[0], param, options.items[1]).Unorderable?
  {
    if IsRange(options) then
      var start, end := options.items[0], options.items[1];
      if !Truthy(param) then Returned
      else
        match ChainLessEq(start, param, end)
        case Unorderable => Raised(TypeError)
        case Ordered(inRange) =>
          if inRange then Returned else Raised(ValueError(OutOfRange(param, start, end)))
    else if options.List? then
      if !In(param, options.items) then Raised(ValueError(NotAnOption(param, options.items)))
      else Returned
    else
      Returned
  }

  /** Range mode, when all three are numbers (`bool` counting as `int`):
      raises `ValueError` exactly when `param` is nonzero and lies outside the
      inclusive range; both endpoints are inside it. */
  lemma NumericRangeRaisesExactly(param: Value, start: Value, end: Value)
    requires IsNumber(param) && IsNumber(start) && IsNumber(end)
    ensures ValidateParam(param, Tuple([start, end])).Raised? <==>
      AsInt(param) != 0 && !(AsInt(start) <= AsInt(param) <= AsInt(end))
    ensures ValidateParam(param, Tuple([start, end])).Raised? ==>
      ValidateParam(param, Tuple([start, end])).exception == ValueError(OutOfRange(param, start, end))
  {
  }

  /** Range mode on strings: raises exactly when `param` is not empty and not
      lexicographically (by code point) between `start` and `end`. */
  lemma StringRangeRaisesExactly(param: string, start: string, end: string)
    ensures ValidateParam(Str(param), Tuple([Str(start), Str(end)])).Raised? <==>
      param != "" &&
      !(LexOrdered(CodePoints(start), CodePoints(param)) && LexOrdered(CodePoints(param), CodePoints(end)))
  {
    LexLessEqIsLexOrder(CodePoints(start), CodePoints(param));
    LexLessEqIsLexOrder(CodePoints(param), CodePoints(end));
  }

  /** Both endpoints of an orderable, non-empty range are accepted. */
  lemma RangeEndpointsAccepted(start: Value, end: Value)
    requires Orderable(start, end) && LessEq(start, end) == Ordered(true)
    ensures ValidateParam(start, Tuple([start, end])) == Returned
    ensures ValidateParam(end, Tuple([start, end])) == Returned
  {
    LessEqReflexive(start);
    LessEqReflexive(end);
  }

  /** A falsy `param` skips the range check, even outside the range:
      `validate_param(0, (1, 10))` returns. */
  lemma ZeroOutsideRangeAccepted()
    ensures ValidateParam(Int(0), Tuple([Int(1), Int(10)])) == Returned
    ensures ValidateParam(Bool(false), Tuple([Int(1), Int(10)])) == Returned
    ensures ValidateParam(Int(11), Tuple([Int(1), Int(10)])).Raised?
  {
  }

  /** A truthy `param` that `<=` cannot order against `start` raises
      `TypeError`; one already below `start` raises `ValueError` without
      `param <= end` ever being evaluated, whatever `end` is. */
  lemma RangeComparisonOrder(param: Value, start: Value, end: Value)
    requires Truthy(param)
    ensures !Orderable(start, param) ==> ValidateParam(param, Tuple([start, end])) == Raised(TypeError)
    ensures LessEq(start, param) == Ordered(false) ==>
      ValidateParam(param, Tuple([start, end])) == Raised(ValueError(OutOfRange(param, start, end)))
  {
  }

  /** Concrete cases of the comparison rules: a string against integer
      bounds raises `TypeError`; `5` against `(10, "x")` fails the first
      comparison and raises `ValueError`; `True` lies in `(1, 1)`. */
  lemma RangeComparisonExamples()
    ensures ValidateParam(Str("a"), Tuple([Int(1), Int(10)])) == Raised(TypeError)
    ensures ValidateParam(Int(5), Tuple([Int(10), Str("x")])).Raised?
    ensures ValidateParam(Int(5), Tuple([Int(10), Str("x")])).exception.ValueError?
    ensures ValidateParam(Bool(true), Tuple([Int(1), Int(1)])) == Returned
  {
  }

  /** List mode, when every option has the kind of `param`: raises exactly
      when `param` is not one of the options. */
  lemma ListRaisesExactlyWhenAbsent(param: Value, items: seq<Value>)
    requires forall k :: 0 <= k < |items| ==> SameKind(items[k], param)
    ensures ValidateParam(param, List(items)).Raised? <==> param !in items
    ensures ValidateParam(param, List(items)).Raised? ==>
      ValidateParam(param, List(items)).exception == ValueError(NotAnOption(param, items))
  {
    InOnSameKind(param, items);
  }

  /** List mode compares with `==`, so `True` matches an option `1`, and an
      empty list rejects everything, falsy values included. */
  lemma ListExamples(param: Value)
    ensures ValidateParam(Bool(true), List([Int(1)])) == Returned
    ensures ValidateParam(Int(0), List([Bool(false), Str("")])) == Returned
    ensures ValidateParam(Str("1"), List([Int(1)])) == Raised(ValueError(NotAnOption(Str("1"), [Int(1)])))
    ensures ValidateParam(param, List([])) == Raised(ValueError(NotAnOption(param, [])))
  {
    assert Equal(Bool(true), Int(1));
    assert Equal(Bool(false), Int(0));
  }

  /** Options that are neither a list nor a 2-tuple are never rejected:
      a 3-tuple, an empty tuple, any other object. */
  lemma OtherShapesNeverRaise(param: Value, items: seq<Value>)
    requires |items| != 2
    ensures ValidateParam(param, Tuple(items)) == Returned
    ensures ValidateParam(param, Other) == Returned
  {
  }

  // ---------------------------------------------------------------------
  // validate_hex

  /** The character class `[0-9a-fA-F]`. */
  predicate IsHexDigit(c: char)
  {
    ('0' <= c <= '9') || ('a' <= c <= 'f') || ('A' <= c <= 'F')
  }

  /** The regex tail `$`, without MULTILINE: the end of the string, or just
      before a newline that ends the string. */
  predicate AtEnd(rest: string)
  {
    rest == "" || rest == "\n"
  }

  /** The regex tail `[0-9a-fA-F]{n}$` matched against `rest`. */
  predicate MatchesHexRun(rest: string, n: nat)
    decreases n
  {
    if n == 0 then AtEnd(rest)
    else |rest| > 0 && IsHexDigit(rest[0]) && MatchesHexRun(rest[1..], n - 1)
  }

  /** `re.compile(r'^#[0-9a-fA-F]{6}$').match(color)` succeeds: `match`
      anchors at the start, then `#`, then the six-digit run. */
  predicate MatchesHexPattern(color: string)
  {
    |color| > 0 && color[0] == '#' && MatchesHexRun(color[1..], 6)
  }

  /** `validate_hex(color)`: raises `ValueError` unless the pattern matches. */
  function ValidateHex(color: string): (r: Outcome)
    ensures r.Raised? ==> r.exception == ValueError(BadHexColor(color))
    ensures r == Returned ==> |color| in {7, 8} && color[0] == '#'
  {
    if !MatchesHexPattern(color) then Raised(ValueError(BadHexColor(color)))
    else
      HexRunExactly(color[1..], 6);
      Returned
  }

  /** The accepted colours, stated directly: `#` and six hex digits, with
      at most one trailing newline. */
  predicate IsHexColor(color: string)
  {
    && (|color| == 7 || (|color| == 8 && color[7] == '\n'))
    && color[0] == '#'
    && forall k :: 1 <= k < 7 ==> IsHexDigit(color[k])
  }

  /** `[0-9a-fA-F]{n}$` matches exactly the strings of `n` hex digits,
      optionally followed by one newline. */
  lemma {:induction false} HexRunExactly(rest: string, n: nat)
    ensures MatchesHexRun(rest, n) <==>
      && (|rest| == n || (|rest| == n + 1 && rest[n] == '\n'))
      && forall k :: 0 <= k < n ==> IsHexDigit(rest[k])
    decreases n
  {
    if n > 0 && |rest| > 0 {
      HexRunExactly(rest[1..], n - 1);
      assert forall k :: 1 <= k < n && k < |rest| ==> rest[k] == rest[1..][k - 1];
    }
  }

  /** `validate_hex` returns exactly on `#rrggbb` colours, a single trailing
      newline allowed; every other string raises. */
  lemma ValidateHexAcceptsExactly(color: string)
    ensures ValidateHex(color) == Returned <==> IsHexColor(color)
  {
    if |color| > 0 {
      HexRunExactly(color[1..], 6);
    }
  }

  /** Concrete accepted colours: lower, mixed case, and one final newline. */
  lemma HexAcceptedExamples()
    ensures ValidateHex("#a1b2c3") == Returned
    ensures ValidateHex("#A1b2C3") == Returned
    ensures ValidateHex("#a1b2c3\n") == Returned
  {
    ValidateHexAcceptsExactly("#a1b2c3");
    ValidateHexAcceptsExactly("#A1b2C3");
    ValidateHexAcceptsExactly("#a1b2c3\n");
  }

  /** Concrete rejected strings: the short form, a missing `#`, a non-hex
      digit, an extra digit, a second newline, the empty string. */
  lemma HexRejectedExamples()
    ensures ValidateHex("#abc").Raised?
    ensures ValidateHex("a1b2c3").Raised?
    ensures ValidateHex("#a1b2cg").Raised?
    ensures ValidateHex("#a1b2c3d").Raised?
    ensures ValidateHex("#a1b2c3\n\n").Raised?
    ensures ValidateHex("").Raised?
  {
    ValidateHexAcceptsExactly("#abc");
    ValidateHexAcceptsExactly("a1b2c3");
    ValidateHexAcceptsExactly("#a1b2cg");
    assert !IsHexDigit("#a1b2cg"[6]);
    ValidateHexAcceptsExactly("#a1b2c3d");
    ValidateHexAcceptsExactly("#a1b2c3\n\n");
  }
}
