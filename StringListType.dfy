/**
 * The `StringListType` column type: a list of strings stored in one VARCHAR
 * column as its comma-joined form, read back by splitting on commas, with
 * two query filters over the stored text.
 */
module StringListType {
  import opened Wrappers
  import opened Strings

  /** The character that separates the elements in the stored text. */
  const Separator: char := ','

  /**
   * `process_bind_param`: the value written to the column. A list becomes its
   * comma-joined text, and every element of the list is then matched by the
   * `IsEqual` filter on that text; `None` is written as `None`.
   */
  function ProcessBindParam(value: Option<seq<string>>): (r: Option<string>)
    ensures r.None? <==> value.None?
    ensures value.Some? ==> forall k :: 0 <= k < |value.value| ==> IsEqual(r.value, value.value[k])
  {
    match value
    case None => None
    case Some(xs) =>
      assert forall k :: 0 <= k < |xs| ==> Contains(Join(Separator, xs), xs[k]) by {
        forall k | 0 <= k < |xs| {
          JoinContainsElement(Separator, xs, k);
        }
      }
      Some(Join(Separator, xs))
  }

  /**
   * `process_result_value`: the value read from the column. Stored text
   * becomes a non-empty list with one more element than the text has commas,
   * none of which contains a comma; `None` is read as `None`.
   */
  function ProcessResultValue(value: Option<string>): (r: Option<seq<string>>)
    ensures r.None? <==> value.None?
    ensures value.Some? ==> |r.value| == Count(value.value, Separator) + 1
    ensures value.Some? ==> forall k :: 0 <= k < |r.value| ==> Separator !in r.value[k]
  {
    match value
    case None => None
    case Some(s) => Some(Split(s, Separator))
  }

  /**
   * `is_equal`: the filter "the stored text contains `value`", written as
   * `strpos(column, value) > 0`. It holds exactly when `value` is a substring
   * of the stored text, not when it is one of the stored elements.
   */
  function IsEqual(column: string, value: string): (matched: bool)
    ensures matched <==> Contains(column, value)
  {
    Strpos(column, value) > 0
  }

  /**
   * `in_`: the disjunction of `IsEqual(column, v)` over the values `v`, in
   * order. It holds exactly when some value is a substring of the stored
   * text, so it is false for an empty list of values.
   */
  function In(column: string, values: seq<string>): (matched: bool)
    ensures matched <==> exists k :: 0 <= k < |values| && Contains(column, values[k])
  {
    if values == [] then false
    else IsEqual(column, values[0]) || In(column, values[1..])
  }

  /** Reading a stored value and writing it back gives exactly the stored value. */
  lemma BindAfterResult(value: Option<string>)
    ensures ProcessBindParam(ProcessResultValue(value)) == value
  {
    if value.Some? {
      JoinSplit(value.value, Separator);
    }
  }

  /**
   * Writing a value and reading it back gives the value exactly when it is
   * `None`, or a non-empty list none of whose elements contains a comma.
   */
  lemma ResultAfterBind(value: Option<seq<string>>)
    ensures ProcessResultValue(ProcessBindParam(value)) == value <==>
            value.None? ||
            (|value.value| > 0 && forall k :: 0 <= k < |value.value| ==> Separator !in value.value[k])
  {
    if value.Some? {
      SplitJoin(value.value, Separator);
    }
  }

  /** The empty list is written as the empty text, which is read back as a list holding one empty string. */
  lemma EmptyListNotRestored()
    ensures ProcessBindParam(Some([])) == Some("")
    ensures ProcessResultValue(Some("")) == Some([""])
    ensures ProcessResultValue(ProcessBindParam(Some([]))) != Some([])
  {
  }

  /** An element with a comma in it is read back as several elements. */
  lemma CommaElementNotRestored()
    ensures ProcessBindParam(Some(["a,b"])) == Some("a,b")
    ensures ProcessResultValue(Some("a,b")) == Some(["a", "b"])
  {
    assert "b"[1..] == "" && Split("", Separator) == [""];
    assert [""][1..] == [] && ['b'] + "" == "b";
    assert Split("b", Separator) == ["b"];
    assert ",b"[1..] == "b";
    assert Split(",b", Separator) == ["", "b"];
    assert "a,b"[1..] == ",b";
    assert ["", "b"][1..] == ["b"] && ['a'] + "" == "a";
    assert Split("a,b", Separator) == ["a", "b"];
  }

  /**
   * `IsEqual` on a stored list is not membership: it matches part of an
   * element, and text that straddles the comma between two elements.
   */
  lemma IsEqualIsNotMembership()
    ensures ProcessBindParam(Some(["ab", "c"])) == Some("ab,c")
    ensures IsEqual("ab,c", "a") && "a" !in ["ab", "c"]
    ensures IsEqual("ab,c", "b,c") && "b,c" !in ["ab", "c"]
  {
    var xs := ["ab", "c"];
    assert xs[1..] == ["c"];
    assert Join(Separator, xs) == "ab,c";
    assert "ab,c"[0..1] == "a";
    assert OccursAt("ab,c", "a", 0);
    assert "ab,c"[1..4] == "b,c";
    assert OccursAt("ab,c", "b,c", 1);
  }

  /** `In` over a stored list matches whenever one of the values is an element of the list. */
  lemma InMatchesStoredElement(xs: seq<string>, values: seq<string>, v: string)
    requires v in xs && v in values
    ensures In(ProcessBindParam(Some(xs)).value, values)
  {
  }
}
