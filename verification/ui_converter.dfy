/** `BooleanToVisibilityConverter`: a boolean shown as `Visible`, and
    `false` (or anything that is not a boolean) shown as `Collapsed` when the
    converter parameter is the string "collapsed", `Hidden` otherwise. The
    reverse conversion is not implemented and always throws.
 */
module UIConverter {
  import opened Wrappers

  datatype Visibility = Visible | Hidden | Collapsed

  /** A boxed `object` argument, reduced to what the converter tells apart. */
  datatype Boxed = NullObject | BoxedBool(b: bool) | BoxedString(s: string) | BoxedOther

  const CollapsedParameter: string := "collapsed"

  const NotImplementedMessage: string := "The method or operation is not implemented."

  /** `Convert(value, targetType, parameter, culture)`; the target type and
      the culture are accepted and ignored. */
  function Convert<TargetType, Culture>(value: Boxed, targetType: TargetType, parameter: Boxed, culture: Culture): (r: Visibility)
    // only a boxed true is visible
    ensures r == Visible <==> value == BoxedBool(true)
    // otherwise the parameter decides, compared case-sensitively with "collapsed"
    ensures r == Collapsed <==> value != BoxedBool(true) && parameter == BoxedString(CollapsedParameter)
    ensures r == Hidden <==> value != BoxedBool(true) && parameter != BoxedString(CollapsedParameter)
  {
    var flag := if value.BoxedBool? then value.b else false;
    var collapsed := parameter.BoxedString? && parameter.s == CollapsedParameter;
    if flag then Visible
    else if collapsed then Collapsed
    else Hidden
  }

  /** `ConvertBack`: throws NotImplementedException whatever it is given. */
  function ConvertBack<TargetType, Culture>(value: Boxed, targetType: TargetType, parameter: Boxed, culture: Culture): (r: Raised<Boxed>)
    ensures r.Thrown? && r.message == NotImplementedMessage
  {
    Thrown(NotImplementedMessage)
  }

  /** The target type and the culture never change the result. */
  lemma ConvertIgnoresTargetAndCulture<A, B, C, D>(value: Boxed, parameter: Boxed, t1: A, c1: B, t2: C, c2: D)
    ensures Convert(value, t1, parameter, c1) == Convert(value, t2, parameter, c2)
  {
  }

  /** A value that is not a boolean converts as `false` does. */
  lemma NonBooleanIsFalse<A, B>(value: Boxed, targetType: A, parameter: Boxed, culture: B)
    requires !value.BoxedBool?
    ensures Convert(value, targetType, parameter, culture) == Convert(BoxedBool(false), targetType, parameter, culture)
  {
  }

  /** The comparison is case-sensitive: "Collapsed" gives `Hidden`. */
  lemma CollapsedIsCaseSensitive<A, B>(targetType: A, culture: B)
    ensures Convert(BoxedBool(false), targetType, BoxedString("Collapsed"), culture) == Hidden
    ensures Convert(BoxedBool(false), targetType, BoxedString("collapsed"), culture) == Collapsed
  {
    assert "Collapsed" != CollapsedParameter by { assert "Collapsed"[0] != CollapsedParameter[0]; }
  }
}
