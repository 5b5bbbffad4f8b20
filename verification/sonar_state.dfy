// SonarAnalysisState: the four states of a SonarQube analysis and their
// lenient JSON reading.

module SonarStates {
  import opened Nullable
  import opened JavaLang

  datatype SonarAnalysisState = Pending | Running | Success | Failed

  predicate IsUpperLetter(c: char) {
    'A' <= c <= 'Z'
  }

  /** `toValue`: the constant's name, which is what the JSON carries. */
  function ToValue(s: SonarAnalysisState): (r: string)
    ensures |r| > 0 && forall i :: 0 <= i < |r| ==> IsUpperLetter(r[i])
  {
    match s
    case Pending => "PENDING"
    case Running => "RUNNING"
    case Success => "SUCCESS"
    case Failed => "FAILED"
  }

  /** Different states have different names. */
  lemma ToValueInjective(s: SonarAnalysisState, t: SonarAnalysisState)
    ensures ToValue(s) == ToValue(t) <==> s == t
  {
    if s != t {
      assert ToValue(s)[1] != ToValue(t)[1] || ToValue(s)[0] != ToValue(t)[0];
    }
  }

  /** `valueOf`: the state whose name is exactly `name`. */
  function ValueOf(name: string): (r: Option<SonarAnalysisState>)
    ensures r.Some? ==> ToValue(r.value) == name
    ensures r.None? ==> forall s :: ToValue(s) != name
  {
    if name == "PENDING" then Some(Pending)
    else if name == "RUNNING" then Some(Running)
    else if name == "SUCCESS" then Some(Success)
    else if name == "FAILED" then Some(Failed)
    else None
  }

  /** `fromString`: null stays null; otherwise the trimmed, upper-cased
      text names the state, and an unknown name is null rather than an
      error. */
  function FromString(value: Option<string>): (r: Option<SonarAnalysisState>)
    ensures value.None? ==> r.None?
    ensures r.Some? ==> ToValue(r.value) == ToUpperAscii(Trim(value.value))
    ensures value.Some? && (forall s :: ToValue(s) != ToUpperAscii(Trim(value.value))) ==> r.None?
  {
    match value
    case None => None
    case Some(v) => ValueOf(ToUpperAscii(Trim(v)))
  }

  /** `trim` returns a string that is already trimmed on both ends, padded
      by characters it removes, unchanged. */
  lemma TrimPadded(p: string, t: string, q: string)
    requires |t| > 0 && !IsTrimmed(t[0]) && !IsTrimmed(t[|t| - 1])
    requires forall i :: 0 <= i < |p| ==> IsTrimmed(p[i])
    requires forall i :: 0 <= i < |q| ==> IsTrimmed(q[i])
    ensures Trim(p + t + q) == t
  {
    var s := p + t + q;
    TrimSlice(s);
    var a := TrimLo(s, 0);
    var b := TrimHi(s, a, |s|);
    assert s[|p|] == t[0];
    assert a == |p|;
    assert s[|p| + |t| - 1] == t[|t| - 1];
    assert b == |p| + |t|;
    assert s[a..b] == t;
  }

  /** Reading is case-insensitive and ignores surrounding blanks: any
      spelling of a state's name in upper or lower case letters, padded by
      characters `trim` removes, reads as that state. */
  lemma FromStringLenient(s: SonarAnalysisState, p: string, t: string, q: string)
    requires ToUpperAscii(t) == ToValue(s)
    requires forall i :: 0 <= i < |p| ==> IsTrimmed(p[i])
    requires forall i :: 0 <= i < |q| ==> IsTrimmed(q[i])
    ensures FromString(Some(p + t + q)) == Some(s)
  {
    var u := ToValue(s);
    assert IsUpperLetter(u[0]) && IsUpperLetter(u[|u| - 1]);
    assert UpperAscii(t[0]) == u[0] && UpperAscii(t[|t| - 1]) == u[|u| - 1];
    TrimPadded(p, t, q);
    var r := FromString(Some(p + t + q));
    ToValueInjective(r.value, s);
  }

  /** `fromString(s.toValue()) == s` for every state. */
  lemma FromStringRoundTrip(s: SonarAnalysisState)
    ensures FromString(Some(ToValue(s))) == Some(s)
  {
    var u := ToValue(s);
    assert ToUpperAscii(u) == u;
    FromStringLenient(s, [], u, []);
    assert [] + u + [] == u;
  }
}
