/**
 * Labels attached to objects (backend/src/labels.rs): a lower-cased
 * `name`/`value` pair, written `name=value` in the forward index and
 * `value=name` in the reverse one, and parsed back by splitting at the
 * first `=`.
 */
module Labels {
  import opened Wrappers
  import opened Text
  import BackendErrors

  datatype Label = Label(name: string, value: string)

  /** `Label::new`: both parts ASCII-lower-cased, otherwise unchanged. */
  function New(name: string, value: string): (l: Label)
    ensures IsLower(l.name) && IsLower(l.value)
    ensures EqIgnoreCase(l.name, name) && EqIgnoreCase(l.value, value)
  {
    LowerIsLower(name);
    LowerIsLower(value);
    LowerEqIgnoreCase(name);
    LowerEqIgnoreCase(value);
    Label(Lower(name), Lower(value))
  }

  /** `to_fwd`: the forward-index key; the name is recovered by splitting at the first `=`. */
  function ToFwd(l: Label): (r: string)
    ensures |r| == |l.name| + 1 + |l.value| && r[|l.name|] == '='
    ensures '=' !in l.name ==> SplitOnce(r, '=') == Some((l.name, l.value))
  {
    var r := l.name + "=" + l.value;
    if '=' !in l.name then SplitOnceOfJoin(l.name, '=', l.value); r else r
  }

  /** `to_rev`: the reverse-index key; the value is recovered by splitting at the first `=`. */
  function ToRev(l: Label): (r: string)
    ensures |r| == |l.value| + 1 + |l.name| && r[|l.value|] == '='
    ensures '=' !in l.value ==> SplitOnce(r, '=') == Some((l.value, l.name))
  {
    var r := l.value + "=" + l.name;
    if '=' !in l.value then SplitOnceOfJoin(l.value, '=', l.name); r else r
  }

  /** `impl Display for Label` prints the forward key. */
  function Display(l: Label): (r: string)
    ensures r == ToFwd(l)
  {
    l.name + "=" + l.value
  }

  /** `impl FromStr for Label`. */
  function FromStr(s: string): (r: Result<Label, BackendErrors.MauveError>)
    ensures r.Err? <==> '=' !in s
    ensures r.Err? ==> r.error == BackendErrors.InvalidLabel(s)
    ensures r.Ok? ==> IsLower(r.value.name) && IsLower(r.value.value) && '=' !in r.value.name
  {
    match SplitOnce(s, '=')
    case Some((name, value)) =>
      LowerKeepsChar(name, '=');
      Ok(New(name, value))
    case None => Err(BackendErrors.InvalidLabel(s))
  }

  /** Parsing the forward key of a label built by `new` gives the label back, provided its name has no `=`. */
  lemma ParseForward(name: string, value: string)
    requires '=' !in name
    ensures FromStr(ToFwd(New(name, value))) == Ok(New(name, value))
  {
    var l := New(name, value);
    LowerKeepsChar(name, '=');
    assert '=' !in l.name;
    SplitOnceOfJoin(l.name, '=', l.value);
    LowerOfLower(l.name);
    LowerOfLower(l.value);
  }

  /** A parsed label prints as the lower-cased input: only the case of letters is lost. */
  lemma ForwardOfParse(s: string)
    requires FromStr(s).Ok?
    ensures ToFwd(FromStr(s).value) == Lower(s)
  {
    var (name, value) := SplitOnce(s, '=').value;
    assert FromStr(s).value == Label(Lower(name), Lower(value));
    assert s == (name + "=") + value;
    LowerAppend(name + "=", value);
    LowerAppend(name, "=");
    assert Lower("=") == "=";
    assert ToFwd(Label(Lower(name), Lower(value))) == Lower(name) + "=" + Lower(value);
  }

  /** `new` changes nothing on its own output. */
  lemma NewIdempotent(name: string, value: string)
    ensures New(New(name, value).name, New(name, value).value) == New(name, value)
  {
    LowerIdempotent(name);
    LowerIdempotent(value);
  }
}
