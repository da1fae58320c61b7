/** The evaluation loops of parse_cld_defs_file (lib/auxiliary/config.py): every value of
    every section is expanded and written back over itself, one key after another. */
module ConfigFile {
  import opened Substitution

  type Section = map<string, Text>

  const USER_DEFINED := "user-defined"

  /** The values that take the older `$name/path` route instead of the `${}` loop. */
  predicate OldStyle(value: Text) {
    VarCount(value) == 1 || (VarCount(value) > 1 && HasSlash(value))
  }

  predicate HasSlash(value: Text) {
    exists i :: 0 <= i < |value| && value[i].Lit? && '/' in value[i].text
  }

  /** A section with each value replaced by what it means in `env`. */
  function Evaluated(env: Env, section: Section): Section {
    map k | k in section :: if Meaning(env, section[k]).Done? then Meaning(env, section[k]).text else section[k]
  }

  /** Every user-defined value that expands among the user-defined ones expands to the same
      text when seen from the section, whatever names the section shadows. */
  predicate SameMeanings(user: Section, section: Section) {
    forall k :: k in user && k !in section && Meaning(user, user[k]).Done? ==>
      Meaning(user + section, user[k]) == Meaning(user, user[k])
  }

  /** No name used inside a user-defined value is a key of the section. */
  predicate NoShadow(user: Section, section: Section) {
    forall k, i :: k in user && 0 <= i < |user[k]| && user[k][i].Var? ==> Key(user[k][i].name) !in section
  }

  /** The `${}` loop: it ends on every text without a cycle, with the recursive meaning. */
  method ExpandValue(env: Env, value: Text) returns (r: Outcome)
    requires !Meaning(env, value).Cyclic?
    ensures r == Meaning(env, value)
    ensures r.Done? ==> IsLiteral(r.text)
  {
    var eval := value;
    while !IsLiteral(eval)
      invariant Meaning(env, eval) == Meaning(env, value)
      decreases Cost(env, eval, env.Keys)
    {
      var name := FirstVar(eval);
      if Key(name) !in env {
        UnknownSpoils(env, eval, name);
        return Unknown;
      }
      RoundProgresses(env, eval, name);
      eval := Substitute(eval, name, env[Key(name)]);
    }
    LiteralExpands(env, eval, env.Keys);
    return Done(eval);
  }

  // ---------------------------------------------------------------- shadowing

  /** Names that no key of the section captures mean the same with or without it. */
  lemma {:induction false} UnshadowedSameMeaning(user: Section, section: Section, text: Text, avail: set<string>)
    requires NoShadow(user, section)
    requires forall i :: 0 <= i < |text| && text[i].Var? ==> Key(text[i].name) !in section
    ensures Expand(user + section, text, avail) == Expand(user, text, avail * user.Keys)
    decreases avail, |text|
  {
    if text != [] {
      UnshadowedSameMeaning(user, section, text[1..], avail);
      if text[0].Var? && Key(text[0].name) in user && Key(text[0].name) in avail {
        var k := Key(text[0].name);
        UnshadowedSameMeaning(user, section, user[k], avail - {k});
        assert (avail - {k}) * user.Keys == avail * user.Keys - {k};
      }
    }
  }

  /** Shadowing no name at all is enough. */
  lemma {:induction false} NoShadowIsEnough(user: Section, section: Section)
    requires NoShadow(user, section)
    ensures SameMeanings(user, section)
  {
    forall k | k in user && k !in section ensures Meaning(user + section, user[k]) == Meaning(user, user[k]) {
      UnshadowedSameMeaning(user, section, user[k], (user + section).Keys);
      assert (user + section).Keys * user.Keys == user.Keys;
    }
  }

  /** Whether the user-defined section has been evaluated already shows in no text. */
  ghost predicate Invisible(user: Section, section: Section) {
    forall text: Text :: !Meaning(user + section, text).Cyclic? ==>
      Meaning(Evaluated(user, user) + section, text) == Meaning(user + section, text)
  }

  lemma {:induction false} EvaluatedUserRefines(user: Section, section: Section)
    requires SameMeanings(user, section)
    ensures Refined(user + section, Evaluated(user, user) + section)
  {
  }

  /** In a section from which the user-defined values have no cycle, evaluating them first is
      invisible exactly when the section shadows none of their names in a way that changes
      what a value means. */
  lemma {:induction false} InvisibleExactly(user: Section, section: Section)
    requires forall k :: k in user && k !in section ==> Key(k) == k && !Meaning(user + section, user[k]).Cyclic?
    ensures Invisible(user, section) <==> SameMeanings(user, section)
  {
    var env, now := user + section, Evaluated(user, user) + section;
    if SameMeanings(user, section) {
      EvaluatedUserRefines(user, section);
      forall text: Text | !Meaning(env, text).Cyclic? ensures Meaning(now, text) == Meaning(env, text) {
        RefinedSameMeaning(env, now, text, env.Keys);
      }
    }
    if Invisible(user, section) {
      forall k | k in user && k !in section && Meaning(user, user[k]).Done?
        ensures Meaning(env, user[k]) == Meaning(user, user[k])
      {
        MeaningLaws(env, [], [], k, "");
        DoneIsLiteral(user, user[k], user.Keys);
        LiteralExpands(now, now[k], now.Keys);
        MeaningLaws(now, [], [], k, "");
      }
    }
  }

  /** An instance in which it shows: with u = ${a}${a} and a = 2 user-defined, and a = 1 and
      x = ${u}${u} in a section, x is 1111 or 2222. */
  lemma {:induction false} ShadowingShows()
    ensures var one, two := [Lit("1")], [Lit("2")];
      var user: Section := map["u" := [Var("a"), Var("a")], "a" := two];
      var section: Section := map["a" := one, "x" := [Var("u"), Var("u")]];
      && !SameMeanings(user, section)
      && Evaluated(user + section, section)["x"] == one + one + one + one
      && Evaluated(Evaluated(user, user) + section, section)["x"] == two + two + two + two
  {
    var one, two := [Lit("1")], [Lit("2")];
    var u := [Var("a"), Var("a")];
    var x := [Var("u"), Var("u")];
    var user: Section := map["u" := u, "a" := two];
    var section: Section := map["a" := one, "x" := x];
    assert Key("a") == "a" && Key("u") == "u";
    TwiceMeans(user, "a", two, user.Keys);
    var env := user + section;
    TwiceMeans(env, "a", one, env.Keys);
    assert (one + one)[0] != (two + two)[0];
    TwiceMeans(env, "a", one, env.Keys - {"u"});
    TwiceMeans(env, "u", one + one, env.Keys);
    var after := Evaluated(user, user) + section;
    LiteralExpands(after, two + two, after.Keys - {"u"});
    TwiceMeans(after, "u", two + two, after.Keys);
    assert one + one + one + one == (one + one) + (one + one);
    assert two + two + two + two == (two + two) + (two + two);
    assert env["x"] == x && after["x"] == x;
  }

  lemma {:induction false} TwiceMeans(env: Env, name: string, value: Text, avail: set<string>)
    requires Key(name) == name && name in env && name in avail
    requires Expand(env, env[name], avail - {name}) == Done(value) || env[name] == value
    requires IsLiteral(value)
    ensures Expand(env, [Var(name), Var(name)], avail) == Done(value + value)
  {
    if env[name] == value { LiteralExpands(env, value, avail - {name}); }
    var text := [Var(name), Var(name)];
    assert text[1..] == [Var(name)] && text[1..][1..] == [];
    LeadingVar(env, text, name, avail);
    LeadingVar(env, text[1..], name, avail);
    assert Expand(env, text[1..], avail) == Both(Done(value), Done([]));
    BothUnit(Done(value));
  }

  // ---------------------------------------------------------------- evaluation in place

  type Attributes = map<string, Section>

  function User(attrs: Attributes): Section {
    if USER_DEFINED in attrs then attrs[USER_DEFINED] else map[]
  }

  /** Lookup order: the section's own keys, then the user-defined ones. */
  function Visible(attrs: Attributes, name: string): Env
    requires name in attrs
  {
    User(attrs) + attrs[name]
  }

  /** What a section sees: its own values, and the user-defined ones that they do not shadow. */
  ghost predicate SeenFrom(env: Env, attrs: Attributes, name: string)
    requires name in attrs
  {
    && (forall k :: k in env <==> k in attrs[name] || ("user-defined" in attrs && k in attrs["user-defined"]))
    && (forall k :: k in attrs[name] ==> k in env && env[k] == attrs[name][k])
    && ("user-defined" in attrs ==>
         forall k :: k in attrs["user-defined"] && k !in attrs[name] ==> k in env && env[k] == attrs["user-defined"][k])
  }

  lemma {:induction false} SeenIsVisible(env: Env, attrs: Attributes, name: string)
    requires name in attrs
    ensures SeenFrom(env, attrs, name) <==> env == Visible(attrs, name)
  {
    if SeenFrom(env, attrs, name) { assert env.Keys == Visible(attrs, name).Keys; }
  }

  /** The section has become what its values mean when they are looked up in that order. */
  ghost predicate MeansAll(env: Env, before: Section, after: Section) {
    after.Keys == before.Keys && forall k :: k in before ==> Meaning(env, before[k]) == Done(after[k])
  }

  ghost predicate AllExpand(env: Env, section: Section) {
    forall k :: k in section ==> Meaning(env, section[k]).Done?
  }

  lemma {:induction false} TargetMeans(attrs: Attributes, name: string)
    requires name in attrs
    ensures forall env :: SeenFrom(env, attrs, name) ==> (AllExpand(env, attrs[name]) <==> AllKnown(attrs, name))
    ensures AllKnown(attrs, name) ==>
      forall env :: SeenFrom(env, attrs, name) ==> MeansAll(env, attrs[name], Target(attrs, name))
  {
    forall env | SeenFrom(env, attrs, name)
      ensures AllExpand(env, attrs[name]) <==> AllKnown(attrs, name)
      ensures AllKnown(attrs, name) ==> MeansAll(env, attrs[name], Target(attrs, name))
    {
      SeenIsVisible(env, attrs, name);
    }
  }

  /** What a section should become: every value as it is understood from that section. */
  function Target(attrs: Attributes, name: string): Section
    requires name in attrs
  {
    Evaluated(Visible(attrs, name), attrs[name])
  }

  ghost predicate Evaluable(attrs: Attributes, name: string)
    requires name in attrs
  {
    forall k :: k in attrs[name] ==>
      !Meaning(Visible(attrs, name), attrs[name][k]).Cyclic? && !OldStyle(attrs[name][k])
  }

  ghost predicate AllKnown(attrs: Attributes, name: string)
    requires name in attrs
  {
    forall k :: k in attrs[name] ==> Meaning(Visible(attrs, name), attrs[name][k]).Done?
  }

  /** A section of which the first i visited keys have been overwritten. */
  ghost predicate Written(start: Attributes, now: Attributes, name: string, order: seq<string>, i: nat)
    requires name in start
  {
    var env := Visible(start, name);
    && name in now && now == start[name := now[name]] && now[name].Keys == start[name].Keys
    && i <= |order|
    && Refined(env, Visible(now, name))
    && (forall j :: 0 <= j < i && order[j] in start[name] ==>
         Meaning(env, start[name][order[j]]) == Done(now[name][order[j]]))
    && (forall k :: k in start[name] ==>
         now[name][k] == start[name][k] || Meaning(env, start[name][k]) == Done(now[name][k]))
  }

  /** The value found at a key when it is visited still means what it meant at first. */
  lemma {:induction false} VisitKeepsMeaning(start: Attributes, now: Attributes, name: string, order: seq<string>,
                                             i: nat, key: string)
    requires name in start && Evaluable(start, name) && Written(start, now, name, order, i) && key in start[name]
    ensures Meaning(Visible(now, name), now[name][key]) == Meaning(Visible(start, name), start[name][key])
  {
    var env, later := Visible(start, name), Visible(now, name);
    if now[name][key] == start[name][key] {
      RefinedSameMeaning(env, later, env[key], env.Keys);
    } else {
      DoneIsLiteral(env, env[key], env.Keys);
      LiteralExpands(later, now[name][key], later.Keys);
    }
  }

  lemma {:induction false} WriteBack(start: Attributes, now: Attributes, name: string, order: seq<string>, i: nat,
                                     text: Text)
    requires name in start && Evaluable(start, name) && Written(start, now, name, order, i)
    requires i < |order| && order[i] in start[name]
    requires Meaning(Visible(start, name), start[name][order[i]]) == Done(text)
    ensures Written(start, now[name := now[name][order[i] := text]], name, order, i + 1)
  {
    var next := now[name := now[name][order[i] := text]];
    assert next == start[name := next[name]];
    SectionRefines(start, next, name);
  }

  lemma {:induction false} SectionRefines(start: Attributes, now: Attributes, name: string)
    requires name in start && name in now && now == start[name := now[name]]
    requires now[name].Keys == start[name].Keys
    requires forall k :: k in start[name] ==>
      now[name][k] == start[name][k] || Meaning(Visible(start, name), start[name][k]) == Done(now[name][k])
    ensures Refined(Visible(start, name), Visible(now, name))
  {
    var env, later := Visible(start, name), Visible(now, name);
    assert later.Keys == env.Keys;
    forall k | k in env ensures later[k] == env[k] || Meaning(env, env[k]) == Done(later[k]) {
      if k in start[name] {
        assert env[k] == start[name][k] && later[k] == now[name][k];
      }
    }
  }

  lemma {:induction false} AllWritten(start: Attributes, now: Attributes, name: string, order: seq<string>)
    requires name in start && Written(start, now, name, order, |order|)
    requires forall k :: k in order <==> k in start[name]
    ensures now == start[name := Target(start, name)] && AllKnown(start, name)
  {
    forall k | k in start[name]
      ensures Meaning(Visible(start, name), start[name][k]) == Done(now[name][k])
    {
      var j :| 0 <= j < |order| && order[j] == k;
    }
    assert now[name] == Target(start, name);
  }

  /** A file in which no section changes what a user-defined value means. */
  ghost predicate Unshadowed(attrs: Attributes) {
    forall s :: s in attrs && s != USER_DEFINED ==> SameMeanings(User(attrs), attrs[s])
  }

  /** Some sections hold their targets already, the others are as they were read. */
  ghost predicate SectionsDone(start: Attributes, now: Attributes, done: set<string>) {
    && now.Keys == start.Keys
    && forall s :: s in start ==> now[s] == if s in done then Target(start, s) else start[s]
  }

  /** A section not yet visited is evaluated to the same target whether or not the user-
      defined one has been. */
  lemma {:induction false} SameTarget(start: Attributes, now: Attributes, done: set<string>, name: string)
    requires Unshadowed(start) && SectionsDone(start, now, done) && name in start && name !in done
    requires Evaluable(start, name)
    ensures Evaluable(now, name) && (AllKnown(now, name) <==> AllKnown(start, name))
    ensures Target(now, name) == Target(start, name)
  {
    var env, later := Visible(start, name), Visible(now, name);
    if USER_DEFINED in start && USER_DEFINED in done {
      var user := User(start);
      assert user + user == user;
      EvaluatedUserRefines(user, start[name]);
    } else {
      assert later == env;
    }
    forall k | k in start[name] ensures Meaning(later, now[name][k]) == Meaning(env, start[name][k]) {
      RefinedSameMeaning(env, later, start[name][k], env.Keys);
    }
  }

  /** The first i sections have been evaluated. */
  ghost predicate FileDone(start: Attributes, now: Attributes, sections: seq<string>, i: nat)
    requires i <= |sections|
  {
    && SectionsDone(start, now, set j | 0 <= j < i :: sections[j])
    && forall j :: 0 <= j < i && sections[j] in start ==> AllKnown(start, sections[j])
  }

  lemma {:induction false} SectionNext(start: Attributes, now: Attributes, sections: seq<string>, i: nat)
    requires i < |sections| && FileDone(start, now, sections, i)
    requires Unshadowed(start) && sections[i] in start && Evaluable(start, sections[i])
    requires forall j :: 0 <= j < i ==> sections[j] != sections[i]
    ensures sections[i] in now && Evaluable(now, sections[i])
    ensures AllKnown(now, sections[i]) <==> AllKnown(start, sections[i])
    ensures now[sections[i]] == start[sections[i]]
    ensures AllKnown(start, sections[i]) ==>
      FileDone(start, now[sections[i] := Target(now, sections[i])], sections, i + 1)
  {
    var done := set j | 0 <= j < i :: sections[j];
    SameTarget(start, now, done, sections[i]);
    assert (set j | 0 <= j < i + 1 :: sections[j]) == done + {sections[i]};
  }

  class Definitions {
    var attrs: Attributes

    constructor (attrs: Attributes)
      ensures this.attrs == attrs
    {
      this.attrs := attrs;
    }

    /** Whatever order the keys are visited in, and although later values are looked up
        among values already overwritten, each key ends with the meaning it had before the
        section was touched; the section fails exactly if some name is unknown. */
    method EvaluateSection(name: string, order: seq<string>) returns (ok: bool)
      requires name in attrs && Evaluable(attrs, name)
      requires forall k :: k in order <==> k in attrs[name]
      modifies this
      ensures ok <==> AllKnown(old(attrs), name)
      ensures ok ==> attrs == old(attrs)[name := Target(old(attrs), name)]
      ensures forall env :: SeenFrom(env, old(attrs), name) ==> (ok <==> AllExpand(env, old(attrs)[name]))
      ensures ok ==> attrs.Keys == old(attrs).Keys && forall s :: s in attrs && s != name ==> attrs[s] == old(attrs)[s]
      ensures ok ==> forall env :: SeenFrom(env, old(attrs), name) ==> MeansAll(env, old(attrs)[name], attrs[name])
    {
      ghost var start := attrs;
      TargetMeans(start, name);
      assert start == start[name := start[name]];
      for i := 0 to |order|
        invariant Written(start, attrs, name, order, i)
      {
        var key := order[i];
        assert key in order;
        VisitKeepsMeaning(start, attrs, name, order, i, key);
        var eval := ExpandValue(Visible(attrs, name), attrs[name][key]);
        if eval == Unknown {
          return false;
        }
        WriteBack(start, attrs, name, order, i, eval.text);
        attrs := attrs[name := attrs[name][key := eval.text]];
      }
      AllWritten(start, attrs, name, order);
      return true;
    }

    /** With no shadowing that matters, the whole file ends the same whatever order its sections
        and their keys are visited in: each value as its own section understood it at first. */
    method EvaluateFile(sections: seq<string>, orders: map<string, seq<string>>) returns (ok: bool)
      requires Unshadowed(attrs) && forall s :: s in attrs ==> Evaluable(attrs, s)
      requires forall s :: s in sections <==> s in attrs
      requires forall i, j :: 0 <= i < j < |sections| ==> sections[i] != sections[j]
      requires forall s :: s in attrs ==> s in orders && forall k :: k in orders[s] <==> k in attrs[s]
      modifies this
      ensures ok <==> forall s :: s in old(attrs) ==> AllKnown(old(attrs), s)
      ensures ok ==> attrs == map s | s in old(attrs) :: Target(old(attrs), s)
      ensures ok <==> FileExpands(old(attrs))
      ensures ok ==> FileMeansAll(old(attrs), attrs)
    {
      FileMeans(attrs);
      ok := EvaluateSections(sections, orders);
    }

    method EvaluateSections(sections: seq<string>, orders: map<string, seq<string>>) returns (ok: bool)
      requires Unshadowed(attrs) && forall s :: s in attrs ==> Evaluable(attrs, s)
      requires forall s :: s in sections <==> s in attrs
      requires forall i, j :: 0 <= i < j < |sections| ==> sections[i] != sections[j]
      requires forall s :: s in attrs ==> s in orders && forall k :: k in orders[s] <==> k in attrs[s]
      modifies this
      ensures ok <==> forall s :: s in old(attrs) ==> AllKnown(old(attrs), s)
      ensures ok ==> attrs == map s | s in old(attrs) :: Target(old(attrs), s)
    {
      ghost var start := attrs;
      for i := 0 to |sections|
        invariant FileDone(start, attrs, sections, i)
      {
        assert sections[i] in sections;
        SectionNext(start, attrs, sections, i);
        var known := EvaluateSection(sections[i], orders[sections[i]]);
        if !known {
          return false;
        }
      }
      FileFinished(start, attrs, sections);
      return true;
    }
  }

  /** Every value of every section expands in what its section sees. */
  ghost predicate FileExpands(attrs: Attributes) {
    forall s, env :: s in attrs && SeenFrom(env, attrs, s) ==> AllExpand(env, attrs[s])
  }

  /** Every section has become what its values mean in what it sees. */
  ghost predicate FileMeansAll(before: Attributes, after: Attributes) {
    && after.Keys == before.Keys
    && forall s, env :: s in before && SeenFrom(env, before, s) ==> MeansAll(env, before[s], after[s])
  }

  lemma {:induction false} FileMeans(start: Attributes)
    ensures FileExpands(start) <==> forall s :: s in start ==> AllKnown(start, s)
    ensures FileExpands(start) ==> FileMeansAll(start, map s | s in start :: Target(start, s))
  {
    forall s, env | s in start && SeenFrom(env, start, s)
      ensures AllExpand(env, start[s]) <==> AllKnown(start, s)
      ensures AllKnown(start, s) ==> MeansAll(env, start[s], Target(start, s))
    {
      TargetMeans(start, s);
    }
    forall s | s in start ensures SeenFrom(Visible(start, s), start, s) {
      SeenIsVisible(Visible(start, s), start, s);
    }
  }

  lemma {:induction false} FileFinished(start: Attributes, now: Attributes, sections: seq<string>)
    requires FileDone(start, now, sections, |sections|) && forall s :: s in sections <==> s in start
    ensures now == map s | s in start :: Target(start, s)
    ensures forall s :: s in start ==> AllKnown(start, s)
  {
    forall s | s in start ensures now[s] == Target(start, s) && AllKnown(start, s) {
      var j :| 0 <= j < |sections| && sections[j] == s;
    }
  }
}
