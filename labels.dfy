/** `resolve_labels` of src/main.rs: turns a metric's configured labels into
    the `(name, value)` pairs attached to a sample. A value beginning with `$`
    is a JSON-path query against the response; any other value is literal.

    The JSON-path engine and the rendering of the first match to text belong
    to external libraries. They are the parameter `query`: `query(path)` is
    `None` when the path does not compile (the source's first `unwrap`),
    otherwise the matches in document order, already rendered as text. */
module Labels {
  import opened Wrappers

  /** A configured label (`Label` in src/config/metric.rs). */
  datatype Label = Label(name: string, value: string)

  /** Why the source would panic while resolving a label. */
  datatype LabelError =
    | BadPath(path: string)   // `JsonPath::from_str(..).unwrap()` fails
    | NoMatch(path: string)   // `val[0]` when the lookup returns no entry

  /** `value.starts_with("$")`. */
  predicate IsPath(value: string) {
    |value| > 0 && value[0] == '$'
  }

  /** The resolved value of one label. */
  function ResolveValue(lbl: Label, query: string -> Option<seq<string>>): (r: Result<string, LabelError>)
    ensures r.Ok? <==> Resolvable(lbl, query)
    ensures r.Err? ==> r.error.path == lbl.value
  {
    if !IsPath(lbl.value) then Ok(lbl.value)
    else
      match query(lbl.value)
      case None => Err(BadPath(lbl.value))
      case Some(matches) =>
        if matches == [] then Err(NoMatch(lbl.value)) else Ok(matches[0])
  }

  /** The whole list, built from the front as the source's loop builds it:
      the first label that cannot be resolved aborts, and no partial list
      survives. */
  function ResolveAll(labels: seq<Label>, query: string -> Option<seq<string>>)
    : (r: Result<seq<(string, string)>, LabelError>)
    ensures r.Ok? ==> |r.value| == |labels|
    decreases |labels|
  {
    if labels == [] then Ok([])
    else
      match ResolveAll(labels[..|labels| - 1], query)
      case Err(e) => Err(e)
      case Ok(done) =>
        var last := labels[|labels| - 1];
        match ResolveValue(last, query)
        case Err(e) => Err(e)
        case Ok(v) => Ok(done + [(last.name, v)])
  }

  /** The loop of the source: one pair pushed per label, in order. */
  method ResolveLabels(labels: seq<Label>, query: string -> Option<seq<string>>)
    returns (r: Result<seq<(string, string)>, LabelError>)
    ensures r == ResolveAll(labels, query)
  {
    var resolved: seq<(string, string)> := [];
    var i := 0;
    while i < |labels|
      invariant 0 <= i <= |labels|
      invariant ResolveAll(labels[..i], query) == Ok(resolved)
    {
      var lbl := labels[i];
      assert labels[..i + 1][..i] == labels[..i];
      if IsPath(lbl.value) {
        var found := query(lbl.value);
        if found.None? {
          r := Err(BadPath(lbl.value));
          PrefixError(labels, i + 1, query);
          return;
        }
        var matches := found.value;
        if |matches| == 0 {
          r := Err(NoMatch(lbl.value));
          PrefixError(labels, i + 1, query);
          return;
        }
        resolved := resolved + [(lbl.name, matches[0])];
      } else {
        resolved := resolved + [(lbl.name, lbl.value)];
      }
      i := i + 1;
    }
    assert labels[..i] == labels;
    r := Ok(resolved);
  }

  // ---------------------------------------------------------------------
  // What the resolution promises

  /** Whether one label can be resolved against the document. */
  predicate Resolvable(lbl: Label, query: string -> Option<seq<string>>) {
    !IsPath(lbl.value) || (query(lbl.value).Some? && query(lbl.value).value != [])
  }

  /** Once a prefix fails, the whole list fails with the same error. */
  lemma {:induction false} PrefixError(labels: seq<Label>, k: nat, query: string -> Option<seq<string>>)
    requires k <= |labels| && ResolveAll(labels[..k], query).Err?
    ensures ResolveAll(labels, query) == ResolveAll(labels[..k], query)
    decreases |labels| - k
  {
    if k < |labels| {
      assert labels[..k + 1][..k] == labels[..k];
      PrefixError(labels, k + 1, query);
    } else {
      assert labels[..k] == labels;
    }
  }

  /** A successful resolution keeps length and order, passes every name
      through, copies literal values exactly, and gives each `$` label the
      first match of its query. */
  lemma {:induction false} ResolvedShape(labels: seq<Label>, query: string -> Option<seq<string>>)
    requires ResolveAll(labels, query).Ok?
    ensures var out := ResolveAll(labels, query).value;
      && |out| == |labels|
      && (forall i :: 0 <= i < |labels| ==> out[i].0 == labels[i].name)
      && (forall i :: 0 <= i < |labels| && !IsPath(labels[i].value) ==> out[i].1 == labels[i].value)
      && (forall i :: 0 <= i < |labels| && IsPath(labels[i].value) ==>
            query(labels[i].value).Some? && query(labels[i].value).value != []
            && out[i].1 == query(labels[i].value).value[0])
    decreases |labels|
  {
    if labels != [] {
      ResolvedShape(labels[..|labels| - 1], query);
    }
  }

  /** Resolution succeeds exactly when every label is resolvable. */
  lemma {:induction false} ResolveSucceedsIff(labels: seq<Label>, query: string -> Option<seq<string>>)
    ensures ResolveAll(labels, query).Ok? <==>
              forall i :: 0 <= i < |labels| ==> Resolvable(labels[i], query)
    decreases |labels|
  {
    if labels != [] {
      var init := labels[..|labels| - 1];
      ResolveSucceedsIff(init, query);
      assert forall i :: 0 <= i < |init| ==> init[i] == labels[i];
    }
  }

  /** A failure reports the first label that cannot be resolved. */
  lemma {:induction false} FirstFailure(labels: seq<Label>, query: string -> Option<seq<string>>)
    requires ResolveAll(labels, query).Err?
    ensures exists k ::
              && 0 <= k < |labels|
              && (forall i :: 0 <= i < k ==> Resolvable(labels[i], query))
              && !Resolvable(labels[k], query)
              && ResolveAll(labels, query).error == ResolveValue(labels[k], query).error
    decreases |labels|
  {
    var init := labels[..|labels| - 1];
    var k := |labels| - 1;
    assert forall i :: 0 <= i < |init| ==> init[i] == labels[i];
    if ResolveAll(init, query).Err? {
      FirstFailure(init, query);
      var j :| 0 <= j < |init|
        && (forall i :: 0 <= i < j ==> Resolvable(init[i], query))
        && !Resolvable(init[j], query)
        && ResolveAll(init, query).error == ResolveValue(init[j], query).error;
      assert labels[j] == init[j];
    } else {
      ResolveSucceedsIff(init, query);
      assert forall i :: 0 <= i < k ==> Resolvable(labels[i], query);
    }
  }

  /** Literal labels do not look at the response: with no `$` value, the
      result is the labels themselves, whatever the document. */
  lemma {:induction false} LiteralsIgnoreDocument(labels: seq<Label>, query: string -> Option<seq<string>>)
    requires forall i :: 0 <= i < |labels| ==> !IsPath(labels[i].value)
    ensures ResolveAll(labels, query) == Ok(AsPairs(labels))
    decreases |labels|
  {
    if labels != [] {
      var init := labels[..|labels| - 1];
      LiteralsIgnoreDocument(init, query);
      var last := labels[|labels| - 1];
      assert AsPairs(labels) == AsPairs(init) + [(last.name, last.value)];
    }
  }

  /** Every label taken as it is written. */
  function AsPairs(labels: seq<Label>): (pairs: seq<(string, string)>)
    ensures |pairs| == |labels|
    ensures forall i :: 0 <= i < |labels| ==> pairs[i] == (labels[i].name, labels[i].value)
  {
    seq(|labels|, i requires 0 <= i < |labels| => (labels[i].name, labels[i].value))
  }
}
