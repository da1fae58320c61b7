/** `${name}` expansion of configuration values (lib/auxiliary/config.py): what a value
    means, what one replacement round does, and why the two agree. */
module Substitution {
  import opened Strings

  /** A value split at its `${name}` occurrences; literals hold no '$'. */
  datatype Token = Lit(text: string) | Var(name: string)

  type Text = seq<Token>

  /** What a name resolves to: the section's own keys shadow the user-defined ones. */
  type Env = map<string, Text>

  datatype Outcome = Done(text: Text) | Unknown | Cyclic

  /** Names are looked up in lower case, whatever their spelling. */
  function Key(name: string): string {
    if name == "" then "" else [LowerChar(name[0])] + Key(name[1..])
  }

  function Both(a: Outcome, b: Outcome): Outcome {
    if a.Cyclic? || b.Cyclic? then Cyclic
    else if a.Unknown? || b.Unknown? then Unknown
    else Done(a.text + b.text)
  }

  /** Full recursive substitution.  `avail` holds the keys not being expanded already, so a
      name that leads back to itself is reported instead of followed. */
  function Expand(env: Env, text: Text, avail: set<string>): Outcome
    decreases avail, |text|
  {
    if text == [] then Done([])
    else Both(ExpandToken(env, text[0], avail), Expand(env, text[1..], avail))
  }

  function ExpandToken(env: Env, token: Token, avail: set<string>): Outcome
    decreases avail, 0
  {
    match token
    case Lit(_) => Done([token])
    case Var(name) =>
      var k := Key(name);
      if k !in env then Unknown
      else if k !in avail then Cyclic
      else Expand(env, env[k], avail - {k})
  }

  function Meaning(env: Env, text: Text): Outcome {
    Expand(env, text, env.Keys)
  }

  /** How many names a full expansion replaces, one occurrence at a time. */
  ghost function Cost(env: Env, text: Text, avail: set<string>): nat
    decreases avail, |text|
  {
    if text == [] then 0
    else CostToken(env, text[0], avail) + Cost(env, text[1..], avail)
  }

  ghost function CostToken(env: Env, token: Token, avail: set<string>): nat
    decreases avail, 0
  {
    match token
    case Lit(_) => 0
    case Var(name) =>
      var k := Key(name);
      if k !in env || k !in avail then 0 else 1 + Cost(env, env[k], avail - {k})
  }

  predicate IsLiteral(text: Text) {
    forall i :: 0 <= i < |text| ==> text[i].Lit?
  }

  function VarCount(text: Text): nat {
    if text == [] then 0 else (if text[0].Var? then 1 else 0) + VarCount(text[1..])
  }

  /** The leftmost `${name}`, as the regular expression search finds it. */
  function FirstVar(text: Text): (name: string)
    requires !IsLiteral(text)
    ensures Var(name) in text
  {
    if text[0].Var? then text[0].name else FirstVar(text[1..])
  }

  /** One round: every occurrence of this spelling of the name gives way to the value. */
  function Substitute(text: Text, name: string, value: Text): Text {
    if text == [] then []
    else (if text[0] == Var(name) then value else [text[0]]) + Substitute(text[1..], name, value)
  }

  /** The rewriting loop cut off after n rounds; None while names are left. */
  datatype Progress = Finished(outcome: Outcome) | Running

  function Rounds(env: Env, text: Text, n: nat): Progress
    decreases n
  {
    if IsLiteral(text) then Finished(Done(text))
    else
      var name := FirstVar(text);
      if Key(name) !in env then Finished(Unknown)
      else if n == 0 then Running
      else Rounds(env, Substitute(text, name, env[Key(name)]), n - 1)
  }

  /** Capital letters become small ones, and nothing else changes. */
  lemma {:induction false} KeyIsLowerCase(name: string)
    ensures |Key(name)| == |name|
    ensures forall i :: 0 <= i < |name| ==>
      Key(name)[i] as int == name[i] as int + if 'A' <= name[i] <= 'Z' then 32 else 0
  {
    if name != "" {
      KeyIsLowerCase(name[1..]);
      assert forall i :: 1 <= i < |name| ==> Key(name)[i] == Key(name[1..])[i - 1] && name[i] == name[1..][i - 1];
    }
  }

  /** A round leaves no occurrence of a name that its value does not bring back. */
  lemma {:induction false} RoundRemovesName(text: Text, name: string, value: Text)
    requires Var(name) !in value
    ensures Var(name) !in Substitute(text, name, value)
  {
    if text != [] { RoundRemovesName(text[1..], name, value); }
  }

  // ---------------------------------------------------------------- expansion

  lemma {:induction false} BothAssociative(a: Outcome, b: Outcome, c: Outcome)
    ensures Both(Both(a, b), c) == Both(a, Both(b, c))
  {
    if a.Done? && b.Done? && c.Done? {
      assert (a.text + b.text) + c.text == a.text + (b.text + c.text);
    }
  }

  lemma {:induction false} ExpandConcat(env: Env, a: Text, b: Text, avail: set<string>)
    ensures Expand(env, a + b, avail) == Both(Expand(env, a, avail), Expand(env, b, avail))
    ensures Cost(env, a + b, avail) == Cost(env, a, avail) + Cost(env, b, avail)
  {
    if a == [] {
      assert a + b == b;
      assert Both(Done([]), Expand(env, b, avail)) == Expand(env, b, avail);
    } else {
      ExpandConcat(env, a[1..], b, avail);
      assert (a + b)[1..] == a[1..] + b;
      BothAssociative(ExpandToken(env, a[0], avail), Expand(env, a[1..], avail), Expand(env, b, avail));
    }
  }

  lemma {:induction false} LiteralExpands(env: Env, text: Text, avail: set<string>)
    requires IsLiteral(text)
    ensures Expand(env, text, avail) == Done(text) && Cost(env, text, avail) == 0
  {
    if text != [] { LiteralExpands(env, text[1..], avail); }
  }

  /** A finished expansion leaves no name behind. */
  lemma {:induction false} DoneIsLiteral(env: Env, text: Text, avail: set<string>)
    ensures Expand(env, text, avail).Done? ==> IsLiteral(Expand(env, text, avail).text)
    decreases avail, |text|
  {
    if text != [] {
      DoneIsLiteral(env, text[1..], avail);
      if text[0].Var? && Key(text[0].name) in env && Key(text[0].name) in avail {
        DoneIsLiteral(env, env[Key(text[0].name)], avail - {Key(text[0].name)});
      }
    }
  }

  /** An expansion that meets no cycle does not depend on which keys it might have used. */
  lemma {:induction false} MoreAvailable(env: Env, text: Text, avail: set<string>, more: set<string>)
    requires avail <= more && !Expand(env, text, avail).Cyclic?
    ensures Expand(env, text, more) == Expand(env, text, avail)
    ensures Cost(env, text, more) == Cost(env, text, avail)
    decreases avail, |text|
  {
    if text != [] {
      MoreAvailable(env, text[1..], avail, more);
      if text[0].Var? && Key(text[0].name) in env {
        var k := Key(text[0].name);
        MoreAvailable(env, env[k], avail - {k}, more - {k});
      }
    }
  }

  /** A value that expands at all never leads back to its own key: if it did, it would have
      to cost more than itself. */
  lemma {:induction false} NeverReturns(env: Env, k: string, text: Text, avail: set<string>)
    requires k in env && avail <= env.Keys
    requires !Meaning(env, env[k]).Cyclic? && !Expand(env, text, avail).Cyclic?
    requires Cost(env, text, avail) <= Cost(env, env[k], env.Keys)
    ensures Expand(env, text, avail - {k}) == Expand(env, text, avail)
    decreases avail, |text|
  {
    if text != [] {
      NeverReturns(env, k, text[1..], avail);
      if text[0].Var? && Key(text[0].name) in env {
        var j := Key(text[0].name);
        if j == k {
          MoreAvailable(env, env[k], avail - {k}, env.Keys);
          assert false;
        } else {
          NeverReturns(env, k, env[j], avail - {j});
          assert avail - {j} - {k} == avail - {k} - {j};
        }
      }
    }
  }

  /** What a text means: literals stand for themselves, a name for the meaning of its value,
      a concatenation for that of its parts, and an unknown name or a cycle spoils it all. */
  lemma {:induction false} MeaningLaws(env: Env, a: Text, b: Text, name: string, l: string)
    ensures Meaning(env, []) == Done([]) && Meaning(env, [Lit(l)]) == Done([Lit(l)])
    ensures Meaning(env, a + b).Done? <==> Meaning(env, a).Done? && Meaning(env, b).Done?
    ensures Meaning(env, a + b).Done? ==> Meaning(env, a + b).text == Meaning(env, a).text + Meaning(env, b).text
    ensures Meaning(env, a + b).Cyclic? <==> Meaning(env, a).Cyclic? || Meaning(env, b).Cyclic?
    ensures Key(name) !in env ==> Meaning(env, [Var(name)]) == Unknown
    ensures Key(name) in env && !Meaning(env, env[Key(name)]).Cyclic? ==>
      Meaning(env, [Var(name)]) == Meaning(env, env[Key(name)])
  {
    ExpandConcat(env, a, b, env.Keys);
    LiteralExpands(env, [Lit(l)], env.Keys);
    var text := [Var(name)];
    assert text[1..] == [];
    LeadingVar(env, text, name, env.Keys);
    assert Expand(env, text, env.Keys) == Both(ExpandToken(env, text[0], env.Keys), Done([]));
    if Key(name) in env && !Meaning(env, env[Key(name)]).Cyclic? {
      NeverReturns(env, Key(name), env[Key(name)], env.Keys);
      BothUnit(Meaning(env, env[Key(name)]));
    }
  }

  // ---------------------------------------------------------------- one round

  function Occurrences(text: Text, name: string): nat {
    if text == [] then 0 else (if text[0] == Var(name) then 1 else 0) + Occurrences(text[1..], name)
  }

  lemma {:induction false} OccursPositive(text: Text, name: string)
    requires Var(name) in text
    ensures Occurrences(text, name) > 0
  {
    if text[0] != Var(name) { OccursPositive(text[1..], name); }
  }

  /** What a leading name contributes to an expansion and to its cost. */
  lemma {:induction false} LeadingVar(env: Env, text: Text, name: string, avail: set<string>)
    requires text != [] && text[0] == Var(name)
    ensures Key(name) !in env ==> ExpandToken(env, text[0], avail) == Unknown
    ensures Key(name) in env && Key(name) in avail ==>
      && ExpandToken(env, text[0], avail) == Expand(env, env[Key(name)], avail - {Key(name)})
      && CostToken(env, text[0], avail) == 1 + Cost(env, env[Key(name)], avail - {Key(name)})
  {
  }

  /** A round keeps the meaning and pays for each occurrence it replaces. */
  lemma {:induction false} RoundKeepsMeaning(env: Env, text: Text, name: string)
    requires Key(name) in env
    requires !Expand(env, env[Key(name)], env.Keys - {Key(name)}).Cyclic?
    ensures var next := Substitute(text, name, env[Key(name)]);
      && Meaning(env, next) == Meaning(env, text)
      && Cost(env, next, env.Keys) + Occurrences(text, name) == Cost(env, text, env.Keys)
  {
    if text != [] {
      var k := Key(name);
      RoundKeepsMeaning(env, text[1..], name);
      var rest := Substitute(text[1..], name, env[k]);
      if text[0] == Var(name) {
        LeadingVar(env, text, name, env.Keys);
        MoreAvailable(env, env[k], env.Keys - {k}, env.Keys);
        ExpandConcat(env, env[k], rest, env.Keys);
      } else {
        ExpandConcat(env, [text[0]], rest, env.Keys);
        assert [text[0]][1..] == [];
        assert Expand(env, [text[0]], env.Keys) == Both(ExpandToken(env, text[0], env.Keys), Done([]));
        BothUnit(ExpandToken(env, text[0], env.Keys));
      }
    }
  }

  lemma {:induction false} BothUnit(a: Outcome)
    ensures Both(a, Done([])) == a
  {
    if a.Done? { assert a.text + [] == a.text; }
  }

  /** A name that occurs in a text with no cycle has a value that never returns to it. */
  lemma {:induction false} OccurringIsAcyclic(env: Env, text: Text, name: string)
    requires Var(name) in text && Key(name) in env && !Meaning(env, text).Cyclic?
    ensures !Expand(env, env[Key(name)], env.Keys - {Key(name)}).Cyclic?
  {
    if text[0] == Var(name) {
      LeadingVar(env, text, name, env.Keys);
    } else {
      OccurringIsAcyclic(env, text[1..], name);
    }
  }

  /** The value that a round copies in expands whenever the rewritten text does. */
  lemma {:induction false} CopiedExpands(env: Env, text: Text, name: string, value: Text)
    requires Var(name) in text && Meaning(env, Substitute(text, name, value)).Done?
    ensures Meaning(env, value).Done?
  {
    var rest := Substitute(text[1..], name, value);
    ExpandConcat(env, if text[0] == Var(name) then value else [text[0]], rest, env.Keys);
    if text[0] != Var(name) { CopiedExpands(env, text[1..], name, value); }
  }

  // ---------------------------------------------------------------- the whole loop

  /** On a text without a cycle a round keeps the meaning and lowers the cost. */
  lemma {:induction false} RoundProgresses(env: Env, text: Text, name: string)
    requires Var(name) in text && Key(name) in env && !Meaning(env, text).Cyclic?
    ensures var next := Substitute(text, name, env[Key(name)]);
      Meaning(env, next) == Meaning(env, text) && Cost(env, next, env.Keys) < Cost(env, text, env.Keys)
  {
    OccurringIsAcyclic(env, text, name);
    RoundKeepsMeaning(env, text, name);
    OccursPositive(text, name);
  }

  /** Without a cycle the loop ends within Cost rounds, with exactly the full expansion, or
      with the unknown name that the full expansion meets. */
  lemma {:induction false} LoopComputesMeaning(env: Env, text: Text, n: nat)
    requires !Meaning(env, text).Cyclic? && n >= Cost(env, text, env.Keys)
    ensures Rounds(env, text, n) == Finished(Meaning(env, text))
    decreases n
  {
    if IsLiteral(text) {
      LiteralExpands(env, text, env.Keys);
    } else {
      var name := FirstVar(text);
      if Key(name) !in env {
        UnknownSpoils(env, text, name);
      } else {
        RoundProgresses(env, text, name);
        LoopComputesMeaning(env, Substitute(text, name, env[Key(name)]), n - 1);
      }
    }
  }

  lemma {:induction false} UnknownSpoils(env: Env, text: Text, name: string)
    requires Var(name) in text && Key(name) !in env
    ensures !Meaning(env, text).Done?
  {
    if text[0] == Var(name) {
      LeadingVar(env, text, name, env.Keys);
    } else {
      UnknownSpoils(env, text[1..], name);
    }
  }

  /** If the loop ever delivers a value, that value is the full recursive substitution. */
  lemma {:induction false} LoopIsSound(env: Env, text: Text, n: nat)
    requires Rounds(env, text, n).Finished? && Rounds(env, text, n).outcome.Done?
    ensures Meaning(env, text) == Rounds(env, text, n).outcome
    decreases n
  {
    if IsLiteral(text) {
      LiteralExpands(env, text, env.Keys);
    } else {
      var name := FirstVar(text);
      var k := Key(name);
      LoopIsSound(env, Substitute(text, name, env[k]), n - 1);
      CopiedExpands(env, text, name, env[k]);
      NeverReturns(env, k, env[k], env.Keys);
      RoundKeepsMeaning(env, text, name);
    }
  }

  /** The loop terminates with a value exactly when recursive substitution has one, and then
      they are equal and free of names; on any other text it raises or runs for ever. */
  lemma {:induction false} LoopExact(env: Env, text: Text, result: Text)
    ensures (exists n: nat :: Rounds(env, text, n) == Finished(Done(result))) <==> Meaning(env, text) == Done(result)
    ensures Meaning(env, text) == Done(result) ==> IsLiteral(result)
  {
    if Meaning(env, text) == Done(result) {
      LoopComputesMeaning(env, text, Cost(env, text, env.Keys));
      assert Rounds(env, text, Cost(env, text, env.Keys)) == Finished(Done(result));
    }
    forall n: nat | Rounds(env, text, n) == Finished(Done(result)) ensures Meaning(env, text) == Done(result) {
      LoopIsSound(env, text, n);
    }
    DoneIsLiteral(env, text, env.Keys);
  }

  // ---------------------------------------------------------------- writing back

  /** Every key still holds its value or already holds that value's expansion. */
  ghost predicate Refined(env: Env, now: Env) {
    && now.Keys == env.Keys
    && forall k :: k in env ==> now[k] == env[k] || Meaning(env, env[k]) == Done(now[k])
  }

  /** Overwriting values by their expansions changes the expansion of no text. */
  lemma {:induction false} RefinedSameMeaning(env: Env, now: Env, text: Text, avail: set<string>)
    requires Refined(env, now) && avail <= env.Keys && !Expand(env, text, avail).Cyclic?
    ensures Expand(now, text, avail) == Expand(env, text, avail)
    decreases avail, |text|
  {
    if text != [] {
      RefinedSameMeaning(env, now, text[1..], avail);
      if text[0].Var? && Key(text[0].name) in env {
        var k := Key(text[0].name);
        if now[k] == env[k] {
          RefinedSameMeaning(env, now, env[k], avail - {k});
        } else {
          MoreAvailable(env, env[k], avail - {k}, env.Keys);
          DoneIsLiteral(env, env[k], env.Keys);
          LiteralExpands(now, now[k], avail - {k});
        }
      }
    }
  }
}
