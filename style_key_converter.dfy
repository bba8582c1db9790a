/** StyleKeyConverter: the one-way binding converter that turns a Style into a
    (Style, Key) pair when the element it styles can name it. */
module StyleKeyConverter {
  import opened Wpf
  import opened FindName
  import opened KeyOfStyle

  /** The value handed to the display: the Style together with the key found for it. */
  datatype StyleKeyPair = StyleKeyPair(style: Obj, key: string)

  /** What Convert returns: its input, as it came, or a freshly made pair. */
  datatype Converted = Unchanged(value: Option<Obj>) | Paired(pair: StyleKeyPair)

  /** The parameter, read `as FrameworkElement`: `parameter` is `None` when it is null or not
      a node of the tree. */
  predicate IsFrameworkElement(w: World, parameter: Option<NodeId>) {
    parameter.Some? && parameter.value in w.nodes && w.nodes[parameter.value].FrameworkElement?
  }

  /** `value is Style`: a null value is not. */
  predicate IsStyle(value: Option<Obj>) {
    value.Some? && value.value.kind == StyleKind
  }

  /** Convert: a pair exactly when the parameter is a FrameworkElement, the value a Style and
      the key of the element's own Style non-empty; otherwise the value, unchanged. */
  method Convert(w: World, value: Option<Obj>, parameter: Option<NodeId>, ghost rank: map<NodeId, nat>)
    returns (r: Converted)
    requires WellFormed(w)
    requires IsFrameworkElement(w, parameter) && IsStyle(value) ==> WalkRanked(w, rank, parameter.value)
    ensures r.Unchanged? ==> r.value == value
    ensures r.Paired? <==>
      IsFrameworkElement(w, parameter) && IsStyle(value) && KeyOf(w, rank, parameter.value) != ""
    ensures r.Paired? ==>
      r.pair.style == value.value && r.pair.key == KeyOf(w, rank, parameter.value) && r.pair.key != ""
  {
    if !IsFrameworkElement(w, parameter) || !IsStyle(value) {
      return Unchanged(value);
    }
    var styleKey := GetKeyOfStyle(w, parameter.value, rank);
    if styleKey == "" {
      return Unchanged(value);
    }
    return Paired(StyleKeyPair(value.value, styleKey));
  }

  /** ConvertBack: the binding is one-way, so any value comes back as it went in. */
  function ConvertBack<T>(value: T): (r: T)
    ensures r == value
  {
    value
  }
}
