/** The `POST /api/match-tasks` reply as the browser receives it, and the
    client's normalisation of it before the matching view is drawn. Only the
    fields the normalisation touches are JSON values; the rest is carried as
    the server built it. */
module Wire {
  import opened Wrappers
  import opened Seqs
  import opened Text
  import opened Store
  import opened Matcher
  import SkillsCodec

  /** A JSON value as JavaScript sees it after parsing, plus `undefined`.
      Objects are left opaque: the normalisation only asks whether a value
      is an array or a string. */
  datatype Js = Undefined | Null | Bool(b: bool) | Num(n: real) | Str(s: string) | Arr(items: seq<Js>) | Obj

  /** JavaScript truthiness (NaN, a falsy number, is not modelled). */
  predicate Truthy(v: Js)
  {
    match v
    case Undefined => false
    case Null => false
    case Bool(b) => b
    case Num(n) => n != 0.0
    case Str(s) => s != ""
    case _ => true
  }

  /** The error thrown when `split` is called on a truthy non-string. */
  const SplitTypeError := "TypeError: worker_skills.split is not a function"

  datatype WireCandidate = WireCandidate(info: Candidate, workerSkills: Js)

  /** A match's `candidates` field: an array of candidates or some other value. */
  datatype CandidatesField = CandidateList(items: seq<WireCandidate>) | NotCandidateList(value: Js)

  datatype WireMatch = WireMatch(task: Row<Task>, requiredSkills: Js, candidates: CandidatesField)

  /** The reply's `matches` field: an array of matches or some other value. */
  datatype MatchesField = MatchList(items: seq<WireMatch>) | NotMatchList(value: Js)

  /** Strings as JSON strings. */
  function Strs(xs: seq<string>): seq<Js>
  {
    Map(xs, (x: string) => Str(x))
  }

  /** What `jsonify` sends for a match report: both skill columns go out as
      the stored comma-joined strings, not as lists. */
  function ToWire(r: MatchReport): (w: MatchesField)
    ensures w.MatchList? && |w.items| == |r.matches|
    ensures forall i :: 0 <= i < |r.matches| ==>
              && w.items[i].task == r.matches[i].task
              && w.items[i].requiredSkills == Str(r.matches[i].task.data.requiredSkills)
              && w.items[i].candidates.CandidateList?
              && |w.items[i].candidates.items| == |r.matches[i].candidates|
              && forall k :: 0 <= k < |r.matches[i].candidates| ==>
                   w.items[i].candidates.items[k] == WireCandidate(r.matches[i].candidates[k], Str(r.matches[i].candidates[k].workerSkills))
  {
    MatchList(seq(|r.matches|, i requires 0 <= i < |r.matches| =>
      var m := r.matches[i];
      var cs := seq(|m.candidates|, k requires 0 <= k < |m.candidates| =>
        WireCandidate(m.candidates[k], Str(m.candidates[k].workerSkills)));
      WireMatch(m.task, Str(m.task.data.requiredSkills), CandidateList(cs))))
  }

  /** A candidate and a match after normalisation, skill fields as arrays. */
  datatype ShownCandidate = ShownCandidate(info: Candidate, skills: seq<Js>)

  datatype ShownMatch = ShownMatch(task: Row<Task>, requiredSkills: seq<Js>, candidates: seq<ShownCandidate>)

  /** The normalisation of `worker_skills`: an array is kept, a falsy value
      becomes empty, a string is split on commas and each piece trimmed, and
      any other truthy value makes the `split` call throw. */
  function NormaliseSkills(v: Js): (r: Result<seq<Js>, string>)
    ensures v.Arr? ==> r == Success(v.items)
    ensures !Truthy(v) ==> r == Success([])
    ensures v.Str? && v.s != "" ==>
              r.Success? && |r.value| == CountChar(v.s, SkillsCodec.Comma) + 1
              && forall k :: 0 <= k < |r.value| ==> r.value[k].Str? && SkillsCodec.Comma !in r.value[k].s
    ensures r.Failure? <==> Truthy(v) && !v.Arr? && !v.Str?
  {
    if v.Arr? then Success(v.items)
    else if !Truthy(v) then Success([])
    else if v.Str? then
      var pieces := Split(v.s, SkillsCodec.Comma);
      TrimAllTrimmed(pieces, SkillsCodec.Comma);
      Success(Strs(TrimAll(pieces)))
    else Failure(SplitTypeError)
  }

  function NormaliseCandidates(cs: seq<WireCandidate>): (r: Result<seq<ShownCandidate>, string>)
    ensures r.Success? <==> forall k :: 0 <= k < |cs| ==> NormaliseSkills(cs[k].workerSkills).Success?
    ensures r.Success? ==> |r.value| == |cs| && forall k :: 0 <= k < |cs| ==>
              r.value[k] == ShownCandidate(cs[k].info, NormaliseSkills(cs[k].workerSkills).value)
  {
    if |cs| == 0 then Success([])
    else
      match NormaliseSkills(cs[0].workerSkills)
      case Failure(e) => Failure(e)
      case Success(skills) =>
        match NormaliseCandidates(cs[1..])
        case Failure(e) => Failure(e)
        case Success(rest) => Success([ShownCandidate(cs[0].info, skills)] + rest)
  }

  /** The normalisation of one match, given how `required_skills` is treated:
      a `candidates` value that is not an array becomes the empty list. */
  function NormaliseMatch(m: WireMatch, required: Js -> Result<seq<Js>, string>): (r: Result<ShownMatch, string>)
    ensures m.candidates.NotCandidateList? && required(m.requiredSkills).Success? ==>
              r == Success(ShownMatch(m.task, required(m.requiredSkills).value, []))
  {
    match required(m.requiredSkills)
    case Failure(e) => Failure(e)
    case Success(req) =>
      match m.candidates
      case CandidateList(items) =>
        (match NormaliseCandidates(items)
         case Failure(e) => Failure(e)
         case Success(cs) => Success(ShownMatch(m.task, req, cs)))
      case NotCandidateList(_) => Success(ShownMatch(m.task, req, []))
  }

  function NormaliseAll(ms: seq<WireMatch>, required: Js -> Result<seq<Js>, string>): (r: Result<seq<ShownMatch>, string>)
    ensures r.Success? ==> |r.value| == |ms| && forall i :: 0 <= i < |ms| ==> NormaliseMatch(ms[i], required) == Success(r.value[i])
    ensures r.Failure? ==> exists i :: 0 <= i < |ms| && NormaliseMatch(ms[i], required).Failure?
  {
    if |ms| == 0 then Success([])
    else
      match NormaliseMatch(ms[0], required)
      case Failure(e) => Failure(e)
      case Success(m) =>
        match NormaliseAll(ms[1..], required)
        case Failure(e) =>
          var i :| 0 <= i < |ms[1..]| && NormaliseMatch(ms[1..][i], required).Failure?;
          assert NormaliseMatch(ms[i + 1], required).Failure?;
          Failure(e)
        case Success(rest) => Success([m] + rest)
  }

  /** The client code's treatment of `required_skills`: kept when it is an
      array, replaced by the empty list otherwise. */
  function RequiredAsWritten(v: Js): (r: Result<seq<Js>, string>)
    ensures v.Arr? ==> r == Success(v.items)
    ensures !v.Arr? ==> r == Success([])
  {
    if v.Arr? then Success(v.items) else Success([])
  }

  /** The normalisation as the client writes it: a `matches` field that is
      not an array becomes the empty list. */
  function NormaliseAsWritten(f: MatchesField): (r: Result<seq<ShownMatch>, string>)
    ensures f.NotMatchList? ==> r == Success([])
  {
    match f
    case NotMatchList(_) => Success([])
    case MatchList(ms) => NormaliseAll(ms, RequiredAsWritten)
  }

  /** The corrected normalisation: `required_skills` is read the way
      `worker_skills` is, so the stored string becomes its trimmed pieces. */
  function Normalise(f: MatchesField): (r: Result<seq<ShownMatch>, string>)
    ensures f.NotMatchList? ==> r == Success([])
  {
    match f
    case NotMatchList(_) => Success([])
    case MatchList(ms) => NormaliseAll(ms, NormaliseSkills)
  }

  /** A stored skill column as the normalisation shows it. */
  function Shown(stored: string): seq<Js>
  {
    Strs(TrimAll(SkillsCodec.Decode(stored)))
  }

  lemma StoredSkillsNormalise(stored: string)
    ensures NormaliseSkills(Str(stored)) == Success(Shown(stored))
  {
  }

  /** As written, the server's reply normalises without error and no match
      ever shows a required skill, whatever the task's stored column holds. */
  lemma RequiredSkillsNeverShown(r: MatchReport)
    ensures NormaliseAsWritten(ToWire(r)).Success?
    ensures forall i :: 0 <= i < |NormaliseAsWritten(ToWire(r)).value| ==>
              NormaliseAsWritten(ToWire(r)).value[i].requiredSkills == []
  {
    var ms := ToWire(r).items;
    forall i | 0 <= i < |ms| ensures NormaliseMatch(ms[i], RequiredAsWritten).Success? {
      forall k | 0 <= k < |ms[i].candidates.items| ensures NormaliseSkills(ms[i].candidates.items[k].workerSkills).Success? {
      }
    }
  }

  /** The stored column `Python` shows as the one skill `Python`. */
  lemma PythonShown()
    ensures Shown("Python") == [Str("Python")]
  {
    var p := "Python";
    assert ',' !in p;
    SplitNoSep(p, ',');
    assert SkillsCodec.Decode(p) == [p];
    Text.TrimUntouched(p);
  }

  /** A concrete reply that shows it: a match of a task whose stored column
      is `Python`, with one candidate, is drawn with that candidate and no
      required skill. */
  lemma RequiredSkillsLostExample(t: Task, c: Candidate)
    requires t.requiredSkills == "Python"
    ensures var r := MatchReport([Match(Row(1, t), [c])], 1);
      NormaliseAsWritten(ToWire(r)) == Success([ShownMatch(Row(1, t), [], [ShownCandidate(c, Shown(c.workerSkills))])])
      && Shown(t.requiredSkills) == [Str("Python")]
  {
    var wc := WireCandidate(c, Str(c.workerSkills));
    var m := WireMatch(Row(1, t), Str("Python"), CandidateList([wc]));
    var shown := ShownMatch(Row(1, t), [], [ShownCandidate(c, Shown(c.workerSkills))]);
    OneMatchSent(Row(1, t), c);
    OneCandidateShown(c);
    assert NormaliseMatch(m, RequiredAsWritten) == Success(shown);
    OneMatchNormalised(m, shown, RequiredAsWritten);
    PythonShown();
  }

  /** The reply for one match with one candidate. */
  lemma OneMatchSent(task: Row<Task>, c: Candidate)
    ensures ToWire(MatchReport([Match(task, [c])], 1))
      == MatchList([WireMatch(task, Str(task.data.requiredSkills), CandidateList([WireCandidate(c, Str(c.workerSkills))]))])
  {
    var w := ToWire(MatchReport([Match(task, [c])], 1));
    assert w.items[0].candidates.items == [WireCandidate(c, Str(c.workerSkills))];
  }

  lemma OneCandidateShown(c: Candidate)
    ensures NormaliseCandidates([WireCandidate(c, Str(c.workerSkills))]) == Success([ShownCandidate(c, Shown(c.workerSkills))])
  {
    var wc := WireCandidate(c, Str(c.workerSkills));
    StoredSkillsNormalise(c.workerSkills);
    var r := NormaliseCandidates([wc]);
    assert [wc][0] == wc;
    assert r.Success?;
    assert r.value == [r.value[0]];
  }

  lemma OneMatchNormalised(m: WireMatch, shown: ShownMatch, required: Js -> Result<seq<Js>, string>)
    requires NormaliseMatch(m, required) == Success(shown)
    ensures NormaliseAll([m], required) == Success([shown])
  {
    var r := NormaliseAll([m], required);
    assert [m][0] == m;
    assert r.Success?;
    assert r.value == [r.value[0]];
  }

  /** The corrected normalisation of the server's reply: every match shows
      its task's stored required skills, and every candidate the worker's
      stored skills, each split on commas and trimmed; the matches, their
      tasks and their candidates are kept as sent, in order. */
  lemma NormaliseShowsStoredSkills(r: MatchReport)
    ensures Normalise(ToWire(r)).Success?
    ensures var shown := Normalise(ToWire(r)).value;
      && |shown| == |r.matches|
      && forall i :: 0 <= i < |r.matches| ==>
           && shown[i].task == r.matches[i].task
           && shown[i].requiredSkills == Shown(r.matches[i].task.data.requiredSkills)
           && |shown[i].candidates| == |r.matches[i].candidates|
           && forall k :: 0 <= k < |r.matches[i].candidates| ==>
                shown[i].candidates[k] == ShownCandidate(r.matches[i].candidates[k], Shown(r.matches[i].candidates[k].workerSkills))
  {
    var ms := ToWire(r).items;
    forall i | 0 <= i < |ms|
      ensures NormaliseMatch(ms[i], NormaliseSkills) == Success(ShownMatch(r.matches[i].task,
                Shown(r.matches[i].task.data.requiredSkills), NormaliseCandidates(ms[i].candidates.items).value))
      ensures |NormaliseCandidates(ms[i].candidates.items).value| == |r.matches[i].candidates|
      ensures forall k :: 0 <= k < |r.matches[i].candidates| ==>
                NormaliseCandidates(ms[i].candidates.items).value[k]
                  == ShownCandidate(r.matches[i].candidates[k], Shown(r.matches[i].candidates[k].workerSkills))
    {
      NormaliseOneMatch(r.matches[i], ms[i]);
    }
  }

  /** One match of the reply under the corrected normalisation. */
  lemma NormaliseOneMatch(m: Match, w: WireMatch)
    requires w.task == m.task && w.requiredSkills == Str(m.task.data.requiredSkills) && w.candidates.CandidateList?
    requires |w.candidates.items| == |m.candidates|
    requires forall k :: 0 <= k < |m.candidates| ==>
               w.candidates.items[k] == WireCandidate(m.candidates[k], Str(m.candidates[k].workerSkills))
    ensures NormaliseCandidates(w.candidates.items).Success?
    ensures NormaliseMatch(w, NormaliseSkills)
              == Success(ShownMatch(m.task, Shown(m.task.data.requiredSkills), NormaliseCandidates(w.candidates.items).value))
    ensures |NormaliseCandidates(w.candidates.items).value| == |m.candidates|
    ensures forall k :: 0 <= k < |m.candidates| ==>
              NormaliseCandidates(w.candidates.items).value[k] == ShownCandidate(m.candidates[k], Shown(m.candidates[k].workerSkills))
  {
    StoredSkillsNormalise(m.task.data.requiredSkills);
    forall k | 0 <= k < |w.candidates.items|
      ensures NormaliseSkills(w.candidates.items[k].workerSkills) == Success(Shown(m.candidates[k].workerSkills))
    {
      StoredSkillsNormalise(m.candidates[k].workerSkills);
    }
  }

  /** Corrected, a task's required skills show up exactly when its stored
      column is non-empty. */
  lemma RequiredSkillsShownIffStored(r: MatchReport, i: nat)
    requires i < |r.matches|
    ensures Normalise(ToWire(r)).Success?
    ensures |Normalise(ToWire(r)).value| == |r.matches|
    ensures |Normalise(ToWire(r)).value[i].requiredSkills| > 0 <==> r.matches[i].task.data.requiredSkills != ""
  {
    NormaliseShowsStoredSkills(r);
  }
}
