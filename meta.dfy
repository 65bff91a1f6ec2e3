/**
 * Object metadata (backend/src/meta.rs) and its one operation,
 * `label_str`, which joins the labels' forward keys with commas.
 */
module Meta {
  import opened Text
  import opened Ints
  import opened Labels

  /**
   * `Metadata`. `labels` is a `HashSet<Label>` in the source; the sequence
   * here is that set in its iteration order, which the source does not fix.
   */
  datatype Metadata = Metadata(
    contentType: string,
    contentEncoding: string,
    contentLanguage: string,
    size: u64,
    labels: seq<Label>,
    offsetMap: string)

  /** What the loop of `label_str` has built after the given labels: each forward key followed by a comma. */
  function Terminated(labels: seq<Label>): (r: string)
    ensures labels != [] ==> |r| > 0 && r[|r| - 1] == ','
  {
    if labels == [] then []
    else Terminated(labels[..|labels| - 1]) + ToFwd(labels[|labels| - 1]) + ","
  }

  /** The forward keys joined by commas, with no comma at either end. */
  function Joined(labels: seq<Label>): string
  {
    if labels == [] then []
    else if |labels| == 1 then ToFwd(labels[0])
    else Joined(labels[..|labels| - 1]) + "," + ToFwd(labels[|labels| - 1])
  }

  /** `Metadata::label_str`. */
  method LabelStr(m: Metadata) returns (s: string)
    ensures s == TrimEnd(Terminated(m.labels), ',')
  {
    s := "";
    var i := 0;
    while i < |m.labels|
      invariant 0 <= i <= |m.labels|
      invariant s == Terminated(m.labels[..i])
    {
      assert m.labels[..i + 1][..i] == m.labels[..i];
      s := s + ToFwd(m.labels[i]);
      s := s + [','];
      i := i + 1;
    }
    assert m.labels[..i] == m.labels;
    s := TrimEnd(s, ',');
  }

  /** No labels, no text; and the text never ends in a comma. */
  lemma LabelStrShape(labels: seq<Label>)
    ensures labels == [] ==> TrimEnd(Terminated(labels), ',') == ""
    ensures var r := TrimEnd(Terminated(labels), ','); r == [] || r[|r| - 1] != ','
  {
  }

  /** With labels, the built text is the comma join followed by one comma. */
  lemma {:induction false} TerminatedIsJoined(labels: seq<Label>)
    requires labels != []
    ensures Terminated(labels) == Joined(labels) + ","
    decreases |labels|
  {
    if |labels| > 1 {
      var init := labels[..|labels| - 1];
      TerminatedIsJoined(init);
    }
  }

  /** Trimming a string that ends in a comma is trimming it without that comma. */
  lemma TrimLastComma(s: string)
    ensures TrimEnd(s + ",", ',') == TrimEnd(s, ',')
  {
    assert (s + ",")[..|s + ","| - 1] == s;
  }

  /**
   * When the last label's forward key does not end in a comma (its value
   * does not), `label_str` is exactly the comma join of the forward keys.
   */
  lemma LabelStrIsJoin(labels: seq<Label>)
    requires labels != []
    requires var f := ToFwd(labels[|labels| - 1]); f[|f| - 1] != ','
    ensures TrimEnd(Terminated(labels), ',') == Joined(labels)
  {
    TerminatedIsJoined(labels);
    TrimLastComma(Joined(labels));
    JoinedEndsWithLast(labels);
  }

  lemma JoinedEndsWithLast(labels: seq<Label>)
    requires labels != []
    ensures var j, f := Joined(labels), ToFwd(labels[|labels| - 1]); |j| >= |f| && j[|j| - 1] == f[|f| - 1]
  {
  }

  /** A single label gives its forward key. */
  lemma LabelStrSingle(l: Label)
    requires l.value == [] || l.value[|l.value| - 1] != ','
    ensures TrimEnd(Terminated([l]), ',') == ToFwd(l)
  {
    LabelStrIsJoin([l]);
  }

  /** Trailing commas of the last value are lost: the label `a=b,` prints as `a=b`. */
  lemma LabelStrDropsTrailingCommas()
    ensures TrimEnd(Terminated([Label("a", "b,")]), ',') == "a=b"
  {
    var t := Terminated([Label("a", "b,")]);
    assert t == "a=b,,";
    assert t[..4] == "a=b,";
    assert t[..4][..3] == "a=b";
  }
}
