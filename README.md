# StringListType: a comma-joined string-list column

This project models the one piece of original logic in a small versioned
entity schema: the `StringListType` column type. It stores a list of strings
in a single VARCHAR column as the elements joined by `,`, reads the column
back by splitting on `,`, and offers two query filters on the stored text:
`is_equal` ("the stored text contains this value", written as
`strpos(column, value) > 0`) and `in_` (the OR of `is_equal` over several
values). Python's `None` is modelled by `Option.None`.

Modules:

- `Wrappers` (Wrappers.dfy): the `Option` datatype.
- `Strings` (Strings.dfy): the primitives the codec uses. `Join` is Python's
  `sep.join(xs)`, `Split` is `s.split(sep)` for a one-character separator,
  and `Strpos` is the 1-based position of the first occurrence of a needle
  (0 when it does not occur). `Contains` and `OccursAt` give an independent,
  index-based definition of "is a substring of", and `Count` counts a
  character.
- `StringListType` (StringListType.dfy): `ProcessBindParam` (encoder),
  `ProcessResultValue` (decoder), `IsEqual` and `In` (filters), and the
  lemmas that relate them.

What is proved, in short: re-encoding a decoded value always restores it;
decoding an encoded value restores it exactly when the value is `None` or a
non-empty list with no comma in any element; the empty list comes back as
`[""]`; decoding always yields one element more than the text has commas,
none of them containing a comma; `IsEqual` is substring containment, so it
matches every stored element but also parts of elements and text spanning a
comma; `In` is false for no values and true exactly when one value is a
substring.

## Model

| member | source | states |
|---|---|---|
| `Strings.Split` | src/model.py:41 | the pieces of `s.split(",")` number one more than the commas in `s`, and no piece contains a comma |
| `Strings.Strpos` | src/model.py:46 | the result is 0 exactly when the needle is not a substring; otherwise it is the 1-based index of an occurrence with no earlier occurrence |
| `Strings.JoinSplit` | src/model.py:34-42 | joining the pieces of a split with the same separator gives back the original string, for every string |
| `Strings.SplitJoin` | src/model.py:34-42 | splitting a join gives back the list if and only if the list is non-empty and no element contains the separator |
| `Strings.JoinContainsElement` | src/model.py:36 | every element of a list is a substring of the list's join |
| `StringListType.ProcessBindParam` | src/model.py:34-37 | `None` is written as `None` and a list as text; every element of the list is matched by `IsEqual` on that text |
| `StringListType.ProcessResultValue` | src/model.py:39-42 | `None` is read as `None`; text is read as a list with one more element than the text has commas, and no element contains a comma |
| `StringListType.IsEqual` | src/model.py:44-46 | `strpos(column, value) > 0` holds exactly when `value` is a substring of the stored text |
| `StringListType.In` | src/model.py:48-50 | the OR over the values holds exactly when some value is a substring of the stored text, so it is false for no values |
| `StringListType.BindAfterResult` | src/model.py:34-42 | writing back a value that was read gives exactly the stored value, `None` included |
| `StringListType.ResultAfterBind` | src/model.py:34-42 | reading back a written value restores it if and only if it is `None` or a non-empty list with no comma in any element |
| `StringListType.EmptyListNotRestored` | src/model.py:34-42 | the empty list is written as `""` and `""` is read back as `[""]`, so the empty list does not survive a round trip |
| `StringListType.CommaElementNotRestored` | src/model.py:34-42 | the one-element list `["a,b"]` is written as `"a,b"` and read back as `["a", "b"]` |
| `StringListType.IsEqualIsNotMembership` | src/model.py:34-46 | on the stored text of `["ab", "c"]`, `IsEqual` matches `"a"` (part of an element) and `"b,c"` (across a comma), neither of which is an element |
| `StringListType.InMatchesStoredElement` | src/model.py:34-50 | `In` on the stored text of a list holds whenever one of the values is an element of the list |

## Left out

- The ORM table-inheritance schema (`Agent`, `Root`, `Entity`, `ReconstructionMorphology`, `SingleNeuronSynaptome`), which the mapping framework dispatches; it declares data, not behaviour.
- History capture through the versioning extension (`make_versioned`, `__versioned__`, `version_class`), whose behaviour lives in a third-party library.
- Timestamp defaults and `onupdate` (database server clock), the full-text-search `TSVECTOR` column, and engine creation and `create_all` (database I/O).
- src/main.py, a script that inserts, commits, queries and prints through a database session; it is all I/O.
- The `dialect` argument of the two codec methods, which the code ignores.
- `is_equal` and `in_` build SQL expressions that the database evaluates; the model gives them the predicate those expressions stand for on the stored text, not SQL's three-valued logic or what `or_()` with no arguments renders to.
- `Strings.Strpos` returns 1 for an empty needle (the empty string occurs at the start), the meaning "substring" gives it; PostgreSQL's own behaviour is not modelled beyond that.
- `in_` reaches `is_equal` through the `Annotated` alias `StringList`; the model calls `IsEqual` directly, as the alias is typing machinery.
- `Split` takes a one-character separator: the code only ever splits on `","`, so Python's multi-character separators are not modelled.
