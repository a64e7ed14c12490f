/** The browser client's own logic: reading a typed skill list, filtering the
    worker directory, and building the filter drop-downs. The DOM, `alert`
    and the network are not modelled; the lists the client holds are the
    server's replies. */
module Client {
  import opened Text
  import opened Seqs
  import opened Store
  import opened Ledger
  import SkillsCodec
  import Api

  /** The skills field of the worker and task forms: the trimmed input, empty
      when blank, otherwise its comma-separated pieces, each trimmed. */
  function ParseSkillInput(raw: string): (r: seq<string>)
    ensures Trim(raw) == "" <==> r == []
    ensures Trim(raw) != "" ==> |r| == CountChar(raw, SkillsCodec.Comma) + 1
    ensures NoSep(r, SkillsCodec.Comma)
    ensures forall i :: 0 <= i < |r| ==> Trim(r[i]) == r[i]
  {
    var t := Trim(raw);
    if t == "" then []
    else
      var pieces := Split(t, SkillsCodec.Comma);
      TrimKeepsCount(raw, SkillsCodec.Comma);
      TrimAllTrimmed(pieces, SkillsCodec.Comma);
      TrimAll(pieces)
  }

  /** A non-blank input parses to its comma-separated pieces, each trimmed:
      the pieces hold no comma and joined with commas give the trimmed
      input back. */
  lemma ParsePieces(raw: string) returns (pieces: seq<string>)
    requires Trim(raw) != ""
    ensures NoSep(pieces, SkillsCodec.Comma)
    ensures Join(pieces, SkillsCodec.Comma) == Trim(raw)
    ensures ParseSkillInput(raw) == TrimAll(pieces)
  {
    pieces := Split(Trim(raw), SkillsCodec.Comma);
    JoinSplit(Trim(raw), SkillsCodec.Comma);
  }

  /** Whatever is typed into a skills field is a list the server's
      comma-joined column keeps: storing it and reading it back gives the
      same list. */
  lemma ParsedSkillsSurviveStorage(raw: string)
    ensures SkillsCodec.Storable(ParseSkillInput(raw))
    ensures SkillsCodec.Decode(SkillsCodec.Encode(ParseSkillInput(raw))) == ParseSkillInput(raw)
  {
    var r := ParseSkillInput(raw);
    var t := Trim(raw);
    if t != "" && CountChar(raw, SkillsCodec.Comma) == 0 {
      TrimKeepsCount(raw, SkillsCodec.Comma);
      CountCharZero(t, SkillsCodec.Comma);
      SplitNoSep(t, SkillsCodec.Comma);
      TrimIdempotent(raw);
      assert r == [t];
    }
    SkillsCodec.DecodeEncode(r);
  }

  /** Adding a worker from the form and reloading the directory shows the
      worker with exactly the skills the form parsed. */
  lemma TypedSkillsListBack(db: Db, f: WorkerForm, raw: string, i: nat)
    requires f.skills == Wrappers.Some(ParseSkillInput(raw))
    requires i == |db.workers.rows|
    ensures var db' := CreateWorker(db, f).0;
      i < |db'.workers.rows| && Api.ViewWorker(db'.workers.rows[i]).skills == ParseSkillInput(raw)
  {
    ParsedSkillsSurviveStorage(raw);
    Api.CreatedSkillsListBack(db, f, i);
  }

  /** The four controls above the worker directory. `availability` is the
      selected option's value; only `available` filters. */
  datatype Filters = Filters(search: string, skill: string, department: string, availability: string)

  /** The availability periods listed for worker `id`. */
  function PeriodsOf(periods: seq<Row<Period>>, id: nat): (r: seq<Row<Period>>)
    ensures forall p :: p in r <==> p in periods && p.data.workerId == id
  {
    Filter(periods, (p: Row<Period>) => p.data.workerId == id)
  }

  /** The directory's filter predicate. `lower` is `String.prototype.toLowerCase`,
      left as a parameter; the search box matches any part of the lower-cased
      name, and an empty skill or department selection matches everyone. */
  predicate Keep(lower: string -> string, f: Filters, periods: seq<Row<Period>>, w: Api.WorkerView)
  {
    && Contains(lower(w.name), lower(f.search))
    && (f.skill == "" || f.skill in w.skills)
    && (f.department == "" || w.department == f.department)
    && (f.availability == "available" ==> |PeriodsOf(periods, w.id)| > 0)
  }

  /** The workers the directory shows for the chosen filters: those the
      predicate keeps, in directory order, and no others. */
  function FilterWorkers(lower: string -> string, f: Filters, workers: seq<Api.WorkerView>,
                         periods: seq<Row<Period>>): (r: seq<Api.WorkerView>)
    ensures forall w :: w in r <==> w in workers && Keep(lower, f, periods, w)
    ensures IsSubsequence(r, workers)
    ensures |r| == Count(workers, (w: Api.WorkerView) => Keep(lower, f, periods, w))
  {
    var keep := (w: Api.WorkerView) => Keep(lower, f, periods, w);
    FilterSpec(workers, keep);
    Filter(workers, keep)
  }

  /** Every string contains the empty string. */
  lemma {:induction false} ContainsEmpty(hay: string)
    ensures Contains(hay, "")
  {
  }

  /** With every control cleared the directory shows every worker, in order. */
  lemma ClearedFiltersShowAll(lower: string -> string, workers: seq<Api.WorkerView>,
                              periods: seq<Row<Period>>, availability: string)
    requires lower("") == "" && availability != "available"
    ensures FilterWorkers(lower, Filters("", "", "", availability), workers, periods) == workers
  {
    var f := Filters("", "", "", availability);
    forall w | w in workers ensures Keep(lower, f, periods, w) {
      ContainsEmpty(lower(w.name));
    }
    FilterAll(workers, (w: Api.WorkerView) => Keep(lower, f, periods, w));
  }

  /** The `available` option keeps a worker exactly when some period is
      listed for that worker, whatever its dates. */
  lemma AvailableMeansSomePeriod(lower: string -> string, f: Filters, periods: seq<Row<Period>>,
                                 w: Api.WorkerView)
    requires f.availability == "available"
    ensures Keep(lower, f, periods, w) <==>
              && Contains(lower(w.name), lower(f.search))
              && (f.skill == "" || f.skill in w.skills)
              && (f.department == "" || w.department == f.department)
              && exists p :: p in periods && p.data.workerId == w.id
  {
    var r := PeriodsOf(periods, w.id);
    if |r| > 0 {
      assert r[0] in r;
    }
    if exists p :: p in periods && p.data.workerId == w.id {
      var p :| p in periods && p.data.workerId == w.id;
      assert p in r;
    }
  }

  /** No element occurs twice (a JavaScript `Set` listed in insertion order). */
  predicate Distinct<T(==)>(xs: seq<T>)
  {
    forall a, b :: 0 <= a < b < |xs| ==> xs[a] != xs[b]
  }

  /** Every skill listed by some worker in `ws`. */
  function AllSkills(ws: seq<Api.WorkerView>): set<string>
  {
    set w, s | w in ws && s in w.skills :: s
  }

  /** Every non-empty department of some worker in `ws`. */
  function AllDepartments(ws: seq<Api.WorkerView>): set<string>
  {
    set w | w in ws && w.department != "" :: w.department
  }

  lemma PrefixStep(ws: seq<Api.WorkerView>, i: nat)
    requires i < |ws|
    ensures AllSkills(ws[..i + 1]) == AllSkills(ws[..i]) + (set s | s in ws[i].skills)
    ensures AllDepartments(ws[..i + 1]) == AllDepartments(ws[..i]) + (if ws[i].department != "" then {ws[i].department} else {})
  {
    assert forall w :: w in ws[..i + 1] <==> w in ws[..i] || w == ws[i] by {
      assert ws[..i + 1] == ws[..i] + [ws[i]];
    }
  }

  /** The options of the skill and department drop-downs: each skill any
      worker lists and each department any worker has (an empty department
      is skipped), each once. */
  method FilterOptions(workers: seq<Api.WorkerView>) returns (skills: seq<string>, departments: seq<string>)
    ensures Distinct(skills) && Distinct(departments)
    ensures forall s :: s in skills <==> s in AllSkills(workers)
    ensures forall d :: d in departments <==> d in AllDepartments(workers)
  {
    skills, departments := [], [];
    var i := 0;
    while i < |workers|
      invariant 0 <= i <= |workers|
      invariant Distinct(skills) && Distinct(departments)
      invariant forall s :: s in skills <==> s in AllSkills(workers[..i])
      invariant forall d :: d in departments <==> d in AllDepartments(workers[..i])
    {
      var w := workers[i];
      var j := 0;
      while j < |w.skills|
        invariant 0 <= j <= |w.skills|
        invariant Distinct(skills)
        invariant forall s :: s in skills <==> s in AllSkills(workers[..i]) || s in w.skills[..j]
      {
        if w.skills[j] !in skills {
          skills := skills + [w.skills[j]];
        }
        assert w.skills[..j + 1] == w.skills[..j] + [w.skills[j]];
        j := j + 1;
      }
      assert w.skills[..j] == w.skills;
      if w.department != "" && w.department !in departments {
        departments := departments + [w.department];
      }
      PrefixStep(workers, i);
      i := i + 1;
    }
    assert workers[..i] == workers;
  }
}
