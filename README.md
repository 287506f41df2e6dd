# Play search of the theater API, in Dafny

This project models the play endpoint of a Django REST theater service,
the `PlayViewSet` in `theater/views.py`:

- `_params_to_ints` reads a comma-separated id list from the query string
  (`?genres=2,5`) with Python's `str.split(",")` and `int()`;
- `get_queryset` narrows the play catalogue by three optional query
  parameters, then removes duplicate rows:
  - `title` is a case-insensitive substring of the play's title;
  - `genres` matches a play that has one of the listed genre ids;
  - `actors` matches a play that has one of the listed actor ids;
- `get_serializer_class` picks the serializer for the current action.

All three are pure, so the model is made of datatypes, functions and
lemmas. It has five modules:

- `Wrappers` holds `Option` and `Result`.
- `Text` holds `split`/`join` on one separator, the whitespace `int()`
  strips, ASCII lower-casing and substring search.
- `PyInt` holds Python's `int()` on base-10 text and `str()` on
  integers:
  - whitespace is stripped from both ends: the ASCII characters
    `\t \n \v \f \r` and the space, and the non-ASCII Unicode
    whitespace. The ASCII separators U+001C..U+001F count as whitespace
    for `str.isspace()` but not for `int()`;
  - one optional sign is allowed;
  - digits may be separated by single underscores;
  - leading zeros are allowed;
  - `ValueError` becomes `None`.
- `QuerySet` holds the ORM's `filter()` and `distinct()` over an
  in-memory catalogue. A `filter(genres__id__in=ids)` across a
  many-to-many relation is a join, so it yields one row per matching
  related id. `distinct()` keeps each row once, at its first position.
- `PlayViewSet` holds the three view functions.

A `ValueError` raised inside `get_queryset` is modelled as
`Failure(InvalidLiteral(piece))`, where `piece` is the first piece
`int()` rejects. Genres are read before actors, as in the source.

## Model

| member | source | states |
|---|---|---|
| PlayViewSet.ParamsToInts | theater/views.py:71-74 | on success, one integer per comma-separated piece, so the length is the number of commas plus one; the i-th integer is int() of the i-th piece; it succeeds exactly when every piece is an integer literal; a failure names the first piece that is not one |
| PlayViewSet.ParseEach | theater/views.py:74 | the list comprehension over the pieces: succeeds iff every piece parses, keeps their order, and fails with the first bad piece |
| PlayViewSet.ParamsToIntsRoundTrip | theater/views.py:74 | any non-empty list of integers written in decimal and joined with "," reads back as the same list in the same order |
| PlayViewSet.EmptyPieceFails | theater/views.py:74 | an empty piece anywhere makes the whole conversion fail |
| PlayViewSet.ParamsToIntsRejectsEmptyPieces | theater/views.py:74 | "a,,b", a trailing comma, a leading comma and the empty string all fail as a whole; no partial list is returned |
| PlayViewSet.Given | theater/views.py:84-91 | the tests `if title:`, `if genres:`, `if actors:`: a parameter is skipped exactly when it is absent or the empty string |
| PlayViewSet.GetQueryset | theater/views.py:76-95 | on success, no play appears twice, every play comes from the catalogue, and each title contains the title parameter ignoring case when that parameter is given |
| PlayViewSet.GetQuerysetIsFilterChain | theater/views.py:82-95 | get_queryset is the chain of filter() calls for the given parameters, then distinct(); it fails exactly when one of the id lists cannot be read |
| PlayViewSet.IdLookupMeaning | theater/views.py:87-93 | a play passes an id-list filter iff it has one of the listed ids; an absent or empty parameter lets every play through |
| PlayViewSet.LookupsMeaning | theater/views.py:84-93 | a play passes all the filters iff its title matches and it has one of the listed genres and one of the listed actors, each only when that parameter is given |
| PlayViewSet.GetQuerysetExact | theater/views.py:84-95 | filters are conjunctive and exact: a play is returned iff it is in the catalogue and satisfies every given filter; no play is returned twice, even one with several listed genres or actors; for a catalogue of distinct rows the result is that selection in catalogue order |
| PlayViewSet.GetQuerysetFailure | theater/views.py:87-93 | a bad genres list raises its ValueError first; a bad actors list raises when genres were fine; with both fine, the search succeeds |
| PlayViewSet.EmptyParamIsSkipped | theater/views.py:84-91 | a parameter given as the empty string gives the same result as an absent one |
| PlayViewSet.NoFilterReturnsCatalogue | theater/views.py:82-95 | with no filter given, a catalogue of distinct plays comes back whole and in order |
| PlayViewSet.GetSerializerClass | theater/views.py:97-104 | "list" gives the list serializer, "retrieve" the detail serializer, and every other action (or none) the base serializer, each as an if-and-only-if |
| QuerySet.MatchesRelated | theater/views.py:89 | a play passes an `__id__in` lookup iff one of its related ids is in the list |
| QuerySet.Repeat | theater/views.py:89 | the join yields k copies of a row, and nothing else |
| QuerySet.FilterAll | theater/views.py:84-93 | after the chain of filter() calls, a play appears iff it was in the rows and passes every lookup of the chain |
| QuerySet.Filter | theater/views.py:85 | after filter(), a play appears iff it appeared before and passes the lookup |
| QuerySet.DistinctFrom | theater/views.py:95 | distinct() keeps exactly the rows not yet seen, each once |
| QuerySet.Distinct | theater/views.py:95 | distinct() keeps every row of its input and no other, each once |
| QuerySet.Where | theater/views.py:84-95 | the reference selection: a play is in it iff it is in the rows and passes every lookup |
| QuerySet.WhereKeepsDistinct | theater/views.py:84-95 | selecting from distinct rows gives distinct rows |
| QuerySet.MatchesAllAppend | theater/views.py:84-93 | passing two lists of lookups is passing their concatenation |
| QuerySet.FilterAllAppend | theater/views.py:84-93 | a chain of filter() calls splits at any point |
| QuerySet.WhereFilter | theater/views.py:89 | selecting after a join is joining after selecting |
| QuerySet.WhereWhere | theater/views.py:84-93 | selecting by one lookup after others is selecting by all of them |
| QuerySet.DistinctFilterAll | theater/views.py:89-95 | distinct() after the joins gives the rows the lookups select, each once, wherever the joins repeated them |
| QuerySet.FilterAllDistinct | theater/views.py:89-95 | for a catalogue of distinct rows, distinct() after the joins equals the plain selection in catalogue order |
| PyInt.ParseInt | theater/views.py:74 | int() reads the text left once the whitespace at both ends is stripped (a sign, then a digit run); None stands for ValueError |
| PyInt.ParseRender | theater/views.py:74 | int(str(n)) == n for every integer |
| PyInt.ParseRenderSpaced | theater/views.py:74 | int() ignores the whitespace it strips around the number |
| PyInt.ParseLeadingSpace | theater/views.py:74 | leading whitespace (the set int() strips) does not change what int() reads |
| PyInt.ParseTrailingSpace | theater/views.py:74 | trailing whitespace (the set int() strips) does not change what int() reads |
| PyInt.ParseBlank | theater/views.py:74 | empty or blank text raises ValueError |
| PyInt.ParseSignedDigits | theater/views.py:74 | a digit string reads as its value, negated after a minus sign |
| PyInt.ParseGroupedDigits | theater/views.py:74 | a single underscore between two digit groups is ignored |
| PyInt.ParseDoubledUnderscore | theater/views.py:74 | two underscores in a row raise ValueError |
| PyInt.ParseLeadingStray | theater/views.py:74 | a number preceded by any character other than a digit, a sign or stripped whitespace raises ValueError: a leading underscore, or the ASCII separator U+001C, which int() does not strip |
| PyInt.ParseTrailingUnderscore | theater/views.py:74 | a trailing underscore raises ValueError |
| PyInt.NatToDigits | theater/views.py:74 | str() of a natural number is a non-empty digit string with no leading zero that denotes it |
| Text.Split | theater/views.py:74 | split(",") gives one piece more than there are commas |
| Text.SplitPiecesLackSeparator | theater/views.py:74 | no piece of split(",") contains a comma |
| Text.JoinSplit | theater/views.py:74 | joining the pieces of a split gives back the text |
| Text.SplitJoin | theater/views.py:74 | splitting a join of comma-free pieces gives back the pieces |
| Text.SplitAround | theater/views.py:74 | a comma splits the text into the pieces before it and the pieces after it |
| Text.Lower | theater/views.py:85 | lower-casing keeps the length, leaves no capital A..Z, turns each capital into its small letter and leaves every other character as it is |
| Text.StripMeaning | theater/views.py:74 | the text int() reads is a slice of its argument with only whitespace around it, and it neither starts nor ends with whitespace |
| Text.LowerIdempotent | theater/views.py:85 | lower-casing twice is lower-casing once |
| Text.InfixAt | theater/views.py:85 | the substring test succeeds iff some slice of the text equals the needle |
| Text.IContains | theater/views.py:85 | title__icontains: true iff some slice of the title equals the parameter once both are lower-cased |
| Text.InfixIContains | theater/views.py:85 | a title that contains the parameter verbatim also contains it ignoring case |
| Text.IContainsIgnoresCase | theater/views.py:85 | icontains does not depend on the case of either side |

## Left out

- The Django ORM itself is not modelled. The catalogue is a sequence of
  `Play` rows, each with the sets of its genre and actor ids.
  `prefetch_related` changes no result and is left out.
- SQL promises no row order. The model keeps catalogue order.
- `icontains` uses ASCII lower-casing only. A database collation's
  Unicode case folding is not modelled.
- `PyInt.ParseInt` accepts only ASCII digits. Python's `int()` also
  accepts other Unicode decimal digits.
- `PyInt.ParseInt` does not model the 4300-digit limit that recent
  Python versions place on `int()` of a string.
- `self.request.query_params.get(...)` is modelled as three
  `Option<string>` parameters. `self.action` is an `Option<string>`.
- `PlayViewSet.GetQueryset`: its own contract states only
  no-duplicates, subset and the title match. The exact membership and
  order are in `PlayViewSet.GetQuerysetExact`.
- The viewset mixins, routing, pagination, permission classes and the
  OpenAPI schema decoration have no logic of their own to model.
- `theater/serializers.py` and `theater/models.py` only declare fields
  and are not part of this model.
- The serializers are modelled as the three names `get_serializer_class`
  can return, not as serializer behaviour.
