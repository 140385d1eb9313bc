# vectorizer_ai argument validators, in Dafny

The vectorizer.ai Python SDK checks a call's arguments before it sends
anything to the vectorizer.ai web service. The checks live in
`vectorizer_ai/utils.py`:

- `param_exists(names, params)` raises `ValueError` unless at least one of
  `params` is truthy.
- `validate_param(param, options)` reads a 2-tuple `options` as an
  inclusive range and a list `options` as the allowed values. It accepts any
  other `options` without checking anything.
- `validate_hex(color)` raises `ValueError` unless `color` matches
  `^#[0-9a-fA-F]{6}$`.

Each validator either returns `None` or raises at once, and has no other
effect. So each one is modelled as a Dafny function from its arguments to an
`Outcome`: `Returned` or `Raised(exception)`.

The model has two modules:

- `PyValues` (`python_values.dfy`) holds the Python semantics the validators
  rely on. It models values of kind `None`, `bool`, `int`, `str` and
  `bytes`, truthiness, the builtin `any`, `==` and list `in`, and `<=`. For
  `==` and `<=`, `bool` counts as an `int` (`True == 1`). `<=` on kinds it
  cannot order yields `TypeError`. Strings and byte strings compare
  lexicographically; the lemma `LexLessEqIsLexOrder` proves the
  element-by-element comparison equal to a direct definition of
  lexicographic order.
- `Utils` (`utils.dfy`) holds the three validators and the lemmas that say
  exactly which inputs each one accepts.

Code and documentation differ in three places, and the model follows the
code:

- `param_exists` is documented as checking that some parameter "exists".
  The code tests truthiness, so `0`, `False`, `""` and `b""` count as missing.
- `validate_param` is documented as rejecting values outside the range. The
  code never compares a falsy `param`, so `0` is accepted against `(1, 10)`.
- The documentation gives `options` as a list or a 2-tuple. Any other
  container, such as a 3-tuple, makes `validate_param` accept every value.

The regex `$` without MULTILINE also matches just before a final newline.
So `validate_hex("#a1b2c3\n")` returns, and `IsHexColor` includes that case.

## Model

| member | source | states |
|---|---|---|
| PyValues.Any | vectorizer_ai/utils.py:50 | `any(params)` is true exactly when some element is truthy; in particular it is false on the empty list |
| PyValues.EqualOnSameKind | vectorizer_ai/utils.py:79 | on two values of one kind, Python `==` is plain equality of values |
| PyValues.In | vectorizer_ai/utils.py:79 | `param in options` holds exactly when some element of the list is `==` to `param` |
| PyValues.InOnSameKind | vectorizer_ai/utils.py:79 | when every option has the kind of `param`, list membership is plain membership |
| PyValues.LexLessEqIsLexOrder | vectorizer_ai/utils.py:74 | Python's element-by-element comparison of str or bytes decides exactly lexicographic order: a prefix, or a smaller element at the first difference |
| PyValues.LexLessEqReflexive | vectorizer_ai/utils.py:74 | every sequence compares `<=` to itself |
| PyValues.LessEq | vectorizer_ai/utils.py:74 | `a <= b` raises `TypeError` exactly when the two values are not two numbers, two strings or two byte strings |
| PyValues.LessEqReflexive | vectorizer_ai/utils.py:74 | every value `<=` can order with itself is `<=` itself, so a range endpoint lies inside its range |
| PyValues.ChainLessEq | vectorizer_ai/utils.py:74 | `start <= param <= end` holds exactly when both comparisons hold; it raises exactly when the first raises, or the first holds and the second raises |
| Utils.ParamExists | vectorizer_ai/utils.py:39-51 | raises exactly when no element of `params` is truthy, and the exception is a `ValueError` naming `names` |
| Utils.ParamExistsEmptyRaises | vectorizer_ai/utils.py:50-51 | an empty `params` list always raises |
| Utils.ParamExistsOneTruthySuffices | vectorizer_ai/utils.py:50 | one truthy parameter makes the call return, whatever the others are |
| Utils.ParamExistsIgnoresNames | vectorizer_ai/utils.py:50-51 | whether the call raises does not depend on `names` |
| Utils.ParamExistsMonotone | vectorizer_ai/utils.py:50 | adding parameters before or after never turns a return into a raise |
| Utils.ValidateParam | vectorizer_ai/utils.py:54-82 | options that are neither a list nor a 2-tuple never raise; a falsy `param` never raises in range mode; list mode raises exactly when no option is `==` to `param`; `TypeError` is raised exactly when a truthy `param` meets a range it cannot be compared with |
| Utils.NumericRangeRaisesExactly | vectorizer_ai/utils.py:71-77 | for numbers, range mode raises exactly when `param` is nonzero and outside `[start, end]`, and the exception is `ValueError` |
| Utils.StringRangeRaisesExactly | vectorizer_ai/utils.py:71-77 | for strings, range mode raises exactly when `param` is non-empty and not lexicographically between `start` and `end` |
| Utils.RangeEndpointsAccepted | vectorizer_ai/utils.py:73-77 | both endpoints of an orderable range with `start <= end` are accepted |
| Utils.ZeroOutsideRangeAccepted | vectorizer_ai/utils.py:74 | `0` and `False` are accepted against `(1, 10)`, while `11` is rejected |
| Utils.RangeComparisonOrder | vectorizer_ai/utils.py:74-77 | a truthy `param` that cannot be ordered against `start` raises `TypeError`; one below `start` raises `ValueError`, whatever `end` is |
| Utils.RangeComparisonExamples | vectorizer_ai/utils.py:74-77 | `"a"` against `(1, 10)` raises `TypeError`; `5` against `(10, "x")` raises `ValueError`; `True` lies in `(1, 1)` |
| Utils.ListRaisesExactlyWhenAbsent | vectorizer_ai/utils.py:78-82 | when options and `param` share one kind, list mode raises `ValueError` exactly when `param` is not among the options |
| Utils.ListExamples | vectorizer_ai/utils.py:78-82 | `True` matches an option `1`; `0` matches `False`; `"1"` does not match `1`; an empty list rejects every value |
| Utils.OtherShapesNeverRaise | vectorizer_ai/utils.py:71-78 | a tuple whose length is not 2, or any non-list object, is never rejected |
| Utils.ValidateHex | vectorizer_ai/utils.py:85-97 | a raise is always `ValueError` about `color`; an accepted colour is 7 or 8 characters and starts with `#` |
| Utils.HexRunExactly | vectorizer_ai/utils.py:95 | `[0-9a-fA-F]{n}$` matches exactly `n` hex digits, optionally followed by one newline |
| Utils.ValidateHexAcceptsExactly | vectorizer_ai/utils.py:95-97 | `validate_hex` returns exactly when `color` is `#` and six hex digits, optionally followed by one `\n`; every other string raises |
| Utils.HexAcceptedExamples | vectorizer_ai/utils.py:95-97 | `#a1b2c3`, `#A1b2C3` and `#a1b2c3\n` are accepted |
| Utils.HexRejectedExamples | vectorizer_ai/utils.py:95-97 | `#abc`, `a1b2c3`, `#a1b2cg`, `#a1b2c3d`, `#a1b2c3\n\n` and the empty string are rejected |

## Left out

- `enforce_types` (`vectorizer_ai/utils.py:7-36`) is not modelled. It relies on runtime reflection (`inspect.signature`, `bind`, `apply_defaults`) and on `isinstance` against arbitrary annotation objects.
- Error-message text is not modelled. A `ValueError` carries only which check failed and on which values.
- Floats are not modelled. Range bounds and parameters are `bool`, `int`, `str` or `bytes`; IEEE comparison and `int`/`float` equality are not covered.
- Values with their own `__bool__`, `__eq__` or `__le__`, and containers used as parameters, are not modelled. Only the five value kinds above exist.
- Utils.ParamExists: `names` is a list of strings. A non-string name would make `', '.join(names)` raise `TypeError` instead of `ValueError`, and that case is not modelled.
- Utils.ValidateHex: `color` is a string. A non-string `color` would make `pattern.match` raise `TypeError`, and that case is not modelled.
- The HTTP client, its authentication and response handling, and `setup.py` are not part of this model. They are I/O glue or packaging metadata, with no validation logic.
