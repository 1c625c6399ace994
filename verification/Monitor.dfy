/** The reference monitor of cs361/SecureSystem (ReferenceMonitor.java, SecurityLevel.java): a
    subject reads what it dominates and writes what dominates it. */
module Monitor {
  import opened Common

  datatype SecurityLevel = LOW | HIGH {
    /** dominates(); the argument may be null. */
    predicate Dominates(other: Option<SecurityLevel>) {
      !(this == LOW && other == Some(HIGH))
    }
  }

  // ----- names, which are compared without regard to case -----

  function LowerCase(c: char): char {
    if 'A' <= c <= 'Z' then c + 32 as char else c
  }

  function Fold(s: string): string {
    if s == "" then "" else [LowerCase(s[0])] + Fold(s[1..])
  }

  predicate EqualsIgnoreCase(s: string, t: string) {
    Fold(s) == Fold(t)
  }

  /** A map with case-insensitive keys, by folded name. */
  type Levels = map<string, SecurityLevel>

  function Get(levels: Levels, name: string): Option<SecurityLevel> {
    if Fold(name) in levels then Some(levels[Fold(name)]) else None
  }

  // ----- state and instructions -----

  /** SubjectElem or ObjectElem: a name, and the value last read or written. */
  datatype Elem = Elem(name: string, value: int)

  datatype Instruction =
    | Read(subj: string, obj: string)
    | Write(subj: string, obj: string, value: int)
    | Bad

  datatype State = State(objList: seq<Elem>, subjList: seq<Elem>)

  /** The first element of that name, from index i on; the length of the list if there is none. */
  function Find(list: seq<Elem>, name: string, i: nat): (k: nat)
    requires i <= |list|
    ensures i <= k <= |list| && (k < |list| ==> EqualsIgnoreCase(list[k].name, name))
    ensures forall j :: i <= j < k ==> !EqualsIgnoreCase(list[j].name, name)
    decreases |list| - i
  {
    if i == |list| || EqualsIgnoreCase(list[i].name, name) then i else Find(list, name, i + 1)
  }

  /** The element of that name gets a value, and the name as it is spelled there. */
  function Assign(list: seq<Elem>, name: string, value: int): (r: seq<Elem>)
    ensures |r| == |list|
  {
    var k := Find(list, name, 0);
    if k < |list| then list[k := Elem(name, value)] else list
  }

  /** Whether permission() grants the instruction; None where it dereferences null. */
  function Granted(oMap: Levels, sMap: Levels, e: Instruction): Option<bool> {
    match e
    case Read(s, o) => if Get(sMap, s).None? then None else Some(Get(sMap, s).value.Dominates(Get(oMap, o)))
    case Write(s, o, _) => if Get(oMap, o).None? then None else Some(Get(oMap, o).value.Dominates(Get(sMap, s)))
    case Bad => Some(false)
  }

  /** processInstruction() */
  function Process(st: State, e: Instruction): State {
    match e
    case Read(s, o) =>
      var k := Find(st.objList, o, 0);
      if k < |st.objList| then st.(subjList := Assign(st.subjList, s, st.objList[k].value)) else st
    case Write(s, o, v) =>
      if Find(st.subjList, s, 0) < |st.subjList| then st.(objList := Assign(st.objList, o, v)) else st
    case Bad => st
  }

  function Step(oMap: Levels, sMap: Levels, st: State, e: Instruction): State {
    if Granted(oMap, sMap, e) == Some(true) then Process(st, e) else st
  }

  function Run(oMap: Levels, sMap: Levels, st: State, es: seq<Instruction>): State
    decreases |es|
  {
    if es == [] then st else Run(oMap, sMap, Step(oMap, sMap, st, es[0]), es[1..])
  }

  // ----- what is granted, and done -----

  /** Two names are equal if at each place they have the same character, or the same letter in
      both cases. */
  lemma {:induction false} FoldExact(s: string, t: string)
    ensures EqualsIgnoreCase(s, t) <==>
              |s| == |t| && forall i :: 0 <= i < |s| ==>
                s[i] == t[i] || ('A' <= s[i] <= 'Z' && t[i] as int == s[i] as int + 32) || ('A' <= t[i] <= 'Z' && s[i] as int == t[i] as int + 32)
    decreases |s|
  {
    if s != "" && t != "" {
      FoldExact(s[1..], t[1..]);
      assert Fold(s)[0] == LowerCase(s[0]) && Fold(t)[0] == LowerCase(t[0]) && Fold(s)[1..] == Fold(s[1..]) && Fold(t)[1..] == Fold(t[1..]);
      assert forall i :: 0 < i < |s| ==> s[i] == s[1..][i - 1];
      assert forall i :: 0 < i < |t| ==> t[i] == t[1..][i - 1];
    }
  }

  /** No read up: the subject is HIGH, or the object is not. */
  predicate ReadAllowed(oMap: Levels, sMap: Levels, subj: string, obj: string) {
    Fold(subj) in sMap && (sMap[Fold(subj)] == HIGH || Fold(obj) !in oMap || oMap[Fold(obj)] == LOW)
  }

  /** No write down: the object is HIGH, or the subject is not. */
  predicate WriteAllowed(oMap: Levels, sMap: Levels, subj: string, obj: string) {
    Fold(obj) in oMap && (oMap[Fold(obj)] == HIGH || Fold(subj) !in sMap || sMap[Fold(subj)] == LOW)
  }

  /** Element i is the first of that name. */
  predicate FirstOf(list: seq<Elem>, name: string, i: nat) {
    i < |list| && EqualsIgnoreCase(list[i].name, name) && forall j :: 0 <= j < i ==> !EqualsIgnoreCase(list[j].name, name)
  }

  predicate HasName(list: seq<Elem>, name: string) {
    exists i :: 0 <= i < |list| && EqualsIgnoreCase(list[i].name, name)
  }

  /** A read that is allowed gives the first element of the subject the value of the first one of
      the object, and nothing else happens; any other read changes nothing. */
  lemma ReadExact(oMap: Levels, sMap: Levels, st: State, subj: string, obj: string, i: nat, j: nat)
    ensures FirstOf(st.objList, obj, i) && FirstOf(st.subjList, subj, j) && ReadAllowed(oMap, sMap, subj, obj) ==>
              Step(oMap, sMap, st, Read(subj, obj)) == State(st.objList, st.subjList[j := Elem(subj, st.objList[i].value)])
    ensures !ReadAllowed(oMap, sMap, subj, obj) || !HasName(st.objList, obj) || !HasName(st.subjList, subj) ==>
              Step(oMap, sMap, st, Read(subj, obj)) == st
  {
    hide Fold;
  }

  /** A write that is allowed gives the first element of the object the value, and nothing else
      happens; any other write changes nothing. */
  lemma WriteExact(oMap: Levels, sMap: Levels, st: State, subj: string, obj: string, value: int, i: nat)
    ensures FirstOf(st.objList, obj, i) && HasName(st.subjList, subj) && WriteAllowed(oMap, sMap, subj, obj) ==>
              Step(oMap, sMap, st, Write(subj, obj, value)) == State(st.objList[i := Elem(obj, value)], st.subjList)
    ensures !WriteAllowed(oMap, sMap, subj, obj) || !HasName(st.objList, obj) || !HasName(st.subjList, subj) ==>
              Step(oMap, sMap, st, Write(subj, obj, value)) == st
  {
    hide Fold;
  }

  // ----- noninterference -----

  predicate IsHigh(levels: Levels, name: string) {
    Get(levels, name) == Some(HIGH)
  }

  predicate ByHigh(sMap: Levels, e: Instruction) {
    !e.Bad? && IsHigh(sMap, e.subj)
  }

  /** The run without the instructions of HIGH subjects. */
  function Purge(sMap: Levels, es: seq<Instruction>): seq<Instruction> {
    if es == [] then [] else (if ByHigh(sMap, es[0]) then [] else [es[0]]) + Purge(sMap, es[1..])
  }

  /** Same names but for case, and the same elements but for HIGH ones. */
  ghost predicate SameLow(levels: Levels, a: seq<Elem>, b: seq<Elem>) {
    |a| == |b| && forall i :: 0 <= i < |a| ==>
      EqualsIgnoreCase(a[i].name, b[i].name) && (!IsHigh(levels, a[i].name) ==> a[i] == b[i])
  }

  ghost predicate LowEquivalent(oMap: Levels, sMap: Levels, st: State, st1: State) {
    SameLow(oMap, st.objList, st1.objList) && SameLow(sMap, st.subjList, st1.subjList)
  }

  /** The first element of a name is at the same place in both. */
  lemma {:induction false} SameFind(levels: Levels, a: seq<Elem>, b: seq<Elem>, name: string, i: nat)
    requires SameLow(levels, a, b) && i <= |a|
    ensures Find(b, name, i) == Find(a, name, i)
    decreases |a| - i
  {
    hide Fold;
    if i < |a| {
      SameFind(levels, a, b, name, i + 1);
    }
  }

  /** The same assignment to both. */
  lemma SameAssign(levels: Levels, a: seq<Elem>, b: seq<Elem>, name: string, v: int, w: int)
    requires SameLow(levels, a, b) && (!IsHigh(levels, name) ==> v == w)
    ensures SameLow(levels, Assign(a, name, v), Assign(b, name, w))
  {
    hide Fold;
    SameFind(levels, a, b, name, 0);
  }

  /** An assignment to a HIGH element is not seen. */
  lemma HighAssign(levels: Levels, a: seq<Elem>, name: string, v: int)
    requires IsHigh(levels, name)
    ensures SameLow(levels, a, Assign(a, name, v))
  {
    hide Fold;
  }

  /** What a HIGH subject does is not seen. */
  lemma HighUnseen(oMap: Levels, sMap: Levels, st: State, e: Instruction)
    requires ByHigh(sMap, e)
    ensures LowEquivalent(oMap, sMap, st, Step(oMap, sMap, st, e))
  {
    hide Fold, Find, Assign;
    Reflexive(oMap, st.objList);
    Reflexive(sMap, st.subjList);
    match e
    case Read(s, o) =>
      forall v {
        HighAssign(sMap, st.subjList, s, v);
      }
    case Write(s, o, v) =>
      if Granted(oMap, sMap, e) == Some(true) {
        HighAssign(oMap, st.objList, o, v);
      }
  }

  lemma Reflexive(levels: Levels, a: seq<Elem>)
    ensures SameLow(levels, a, a)
  {
  }

  lemma Transitive(levels: Levels, a: seq<Elem>, b: seq<Elem>, c: seq<Elem>)
    requires SameLow(levels, a, b) && SameLow(levels, b, c)
    ensures SameLow(levels, a, c)
  {
    hide Fold;
  }

  lemma Symmetric(levels: Levels, a: seq<Elem>, b: seq<Elem>)
    requires SameLow(levels, a, b)
    ensures SameLow(levels, b, a)
  {
    hide Fold;
  }

  lemma ReadsDown(level: SecurityLevel, other: SecurityLevel)
    ensures level.Dominates(Some(other)) <==> level == HIGH || other == LOW
  {
  }

  /** What any other subject does, it does alike in states that look alike to it. */
  lemma LowConsistent(oMap: Levels, sMap: Levels, st: State, st1: State, e: Instruction)
    requires LowEquivalent(oMap, sMap, st, st1) && !ByHigh(sMap, e)
    ensures LowEquivalent(oMap, sMap, Step(oMap, sMap, st, e), Step(oMap, sMap, st1, e))
  {
    hide Fold, Assign;
    match e
    case Bad =>
    case Read(s, o) =>
      SameFind(oMap, st.objList, st1.objList, o, 0);
      var k := Find(st.objList, o, 0);
      if Granted(oMap, sMap, e) == Some(true) && k < |st.objList| {
        assert !IsHigh(oMap, o) && EqualsIgnoreCase(st.objList[k].name, o);
        assert !IsHigh(oMap, st.objList[k].name);
        SameAssign(sMap, st.subjList, st1.subjList, s, st.objList[k].value, st1.objList[k].value);
      }
    case Write(s, o, v) =>
      SameFind(sMap, st.subjList, st1.subjList, s, 0);
      SameAssign(oMap, st.objList, st1.objList, o, v, v);
  }

  /** Noninterference: all subjects and objects but the HIGH ones end with the same values whether
      or not the HIGH subjects act, in any run; an instruction that crashes is skipped. */
  lemma {:induction false} Noninterference(oMap: Levels, sMap: Levels, st: State, st1: State, es: seq<Instruction>)
    requires LowEquivalent(oMap, sMap, st, st1)
    ensures LowEquivalent(oMap, sMap, Run(oMap, sMap, st, es), Run(oMap, sMap, st1, Purge(sMap, es)))
    decreases |es|
  {
    hide Fold, Step, LowEquivalent, ByHigh;
    if es != [] {
      var next := Step(oMap, sMap, st, es[0]);
      if ByHigh(sMap, es[0]) {
        HighUnseen(oMap, sMap, st, es[0]);
        Chained(oMap, sMap, st, next, st1);
        assert Purge(sMap, es) == Purge(sMap, es[1..]);
        Noninterference(oMap, sMap, next, st1, es[1..]);
      } else {
        LowConsistent(oMap, sMap, st, st1, es[0]);
        assert Purge(sMap, es)[0] == es[0] && Purge(sMap, es)[1..] == Purge(sMap, es[1..]);
        Noninterference(oMap, sMap, next, Step(oMap, sMap, st1, es[0]), es[1..]);
      }
    }
  }

  /** From one and the same state. */
  lemma HighActsUnseen(oMap: Levels, sMap: Levels, st: State, es: seq<Instruction>)
    ensures LowEquivalent(oMap, sMap, Run(oMap, sMap, st, es), Run(oMap, sMap, st, Purge(sMap, es)))
  {
    Reflexive(oMap, st.objList);
    Reflexive(sMap, st.subjList);
    Noninterference(oMap, sMap, st, st, es);
  }

  lemma Chained(oMap: Levels, sMap: Levels, st: State, next: State, st1: State)
    requires LowEquivalent(oMap, sMap, st, next) && LowEquivalent(oMap, sMap, st, st1)
    ensures LowEquivalent(oMap, sMap, next, st1)
  {
    Symmetric(oMap, st.objList, next.objList);
    Symmetric(sMap, st.subjList, next.subjList);
    Transitive(oMap, next.objList, st.objList, st1.objList);
    Transitive(sMap, next.subjList, st.subjList, st1.subjList);
  }

  // ----- runs that end in a crash -----

  /** The check of the driver: an instruction that names neither a subject nor an object with a
      level becomes a bad one. */
  function Checked(oMap: Levels, sMap: Levels, e: Instruction): Instruction {
    if !e.Bad? && Get(sMap, e.subj).None? && Get(oMap, e.obj).None? then Bad else e
  }

  predicate Crashes(oMap: Levels, sMap: Levels, e: Instruction) {
    Granted(oMap, sMap, e).None?
  }

  /** What the check lets through and permission() crashes on. */
  lemma CheckedCrashes(oMap: Levels, sMap: Levels, e: Instruction)
    ensures e.Bad? || Fold(e.subj) in sMap || Fold(e.obj) in oMap <==> Checked(oMap, sMap, e) == e
    ensures Crashes(oMap, sMap, Checked(oMap, sMap, e)) <==>
              || (e.Read? && Get(sMap, e.subj).None? && Get(oMap, e.obj).Some?)
              || (e.Write? && Get(oMap, e.obj).None? && Get(sMap, e.subj).Some?)
  {
  }

  /** The first instruction on which permission() crashes, which does not depend on the state. */
  function FirstCrash(oMap: Levels, sMap: Levels, es: seq<Instruction>): (n: nat)
    ensures n <= |es| && (n < |es| ==> Crashes(oMap, sMap, es[n]))
    ensures forall i :: 0 <= i < n ==> !Crashes(oMap, sMap, es[i])
  {
    if es == [] || Crashes(oMap, sMap, es[0]) then 0 else FirstCrash(oMap, sMap, es[1..]) + 1
  }

  /** The instructions that are done before the monitor crashes or has done them all. */
  function Done(oMap: Levels, sMap: Levels, es: seq<Instruction>): seq<Instruction> {
    es[..FirstCrash(oMap, sMap, es)]
  }

  /** The state in which the monitor stops. */
  function Halted(oMap: Levels, sMap: Levels, st: State, es: seq<Instruction>): State {
    Run(oMap, sMap, st, Done(oMap, sMap, es))
  }

  /** No HIGH subject's crash keeps an instruction of another subject from being done. */
  predicate CrashHarmless(oMap: Levels, sMap: Levels, es: seq<Instruction>) {
    var n := FirstCrash(oMap, sMap, es);
    n == |es| || !ByHigh(sMap, es[n]) || Done(oMap, sMap, Purge(sMap, es[n + 1..])) == []
  }

  lemma {:induction false} PurgeJoined(sMap: Levels, a: seq<Instruction>, b: seq<Instruction>)
    ensures Purge(sMap, a + b) == Purge(sMap, a) + Purge(sMap, b)
  {
    hide ByHigh;
    if a == [] {
      assert a + b == b;
    } else {
      assert (a + b)[1..] == a[1..] + b;
      PurgeJoined(sMap, a[1..], b);
    }
  }

  lemma {:induction false} PurgeMembers(sMap: Levels, es: seq<Instruction>, e: Instruction)
    ensures e in Purge(sMap, es) ==> e in es
  {
    hide ByHigh;
    if es != [] {
      PurgeMembers(sMap, es[1..], e);
    }
  }

  lemma DoneNext(oMap: Levels, sMap: Levels, es: seq<Instruction>)
    requires es != [] && !Crashes(oMap, sMap, es[0])
    ensures Done(oMap, sMap, es) == [es[0]] + Done(oMap, sMap, es[1..])
  {
    hide Crashes;
  }

  /** Done instructions in front of others. */
  lemma {:induction false} DoneJoined(oMap: Levels, sMap: Levels, a: seq<Instruction>, b: seq<Instruction>)
    requires forall e :: e in a ==> !Crashes(oMap, sMap, e)
    ensures Done(oMap, sMap, a + b) == a + Done(oMap, sMap, b)
  {
    hide Crashes, Done;
    if a == [] {
      assert a + b == b;
    } else {
      assert (a + b)[1..] == a[1..] + b;
      DoneJoined(oMap, sMap, a[1..], b);
      DoneNext(oMap, sMap, a + b);
    }
  }

  /** The instructions of other subjects that are done are the same without the HIGH ones, exactly
      if no HIGH subject crashes the monitor before an instruction that could be done. */
  lemma HaltsAlike(oMap: Levels, sMap: Levels, es: seq<Instruction>)
    ensures Purge(sMap, Done(oMap, sMap, es)) == Done(oMap, sMap, Purge(sMap, es)) <==> CrashHarmless(oMap, sMap, es)
  {
    hide Crashes, ByHigh, Done, FirstCrash;
    var n := FirstCrash(oMap, sMap, es);
    DoneIs(oMap, sMap, es);
    var before, rest := es[..n], es[n..];
    assert es == before + rest;
    PurgeJoined(sMap, before, rest);
    forall e | e in Purge(sMap, before) ensures !Crashes(oMap, sMap, e) {
      PurgeMembers(sMap, before, e);
    }
    DoneJoined(oMap, sMap, Purge(sMap, before), Purge(sMap, rest));
    DoneEmpty(oMap, sMap, Purge(sMap, rest));
    if rest != [] {
      assert rest[1..] == es[n + 1..] && rest[0] == es[n];
      if ByHigh(sMap, rest[0]) {
        assert Purge(sMap, rest) == Purge(sMap, es[n + 1..]);
      } else {
        assert Purge(sMap, rest)[0] == rest[0];
      }
    }
    AppendedNothing(Purge(sMap, before), Done(oMap, sMap, Purge(sMap, rest)));
  }

  lemma AppendedNothing<T>(a: seq<T>, b: seq<T>)
    ensures a == a + b <==> b == []
  {
    assert |a + b| == |a| + |b|;
  }

  lemma DoneIs(oMap: Levels, sMap: Levels, es: seq<Instruction>)
    ensures Done(oMap, sMap, es) == es[..FirstCrash(oMap, sMap, es)]
  {
  }

  lemma DoneEmpty(oMap: Levels, sMap: Levels, es: seq<Instruction>)
    ensures Done(oMap, sMap, es) == [] <==> es == [] || Crashes(oMap, sMap, es[0])
  {
    hide Crashes;
  }

  /** And then their values are the same where the monitor stops. */
  lemma HaltingNoninterference(oMap: Levels, sMap: Levels, st: State, st1: State, es: seq<Instruction>)
    requires LowEquivalent(oMap, sMap, st, st1) && CrashHarmless(oMap, sMap, es)
    ensures LowEquivalent(oMap, sMap, Halted(oMap, sMap, st, es), Halted(oMap, sMap, st1, Purge(sMap, es)))
  {
    hide LowEquivalent, CrashHarmless, Done, Run, Purge;
    HaltsAlike(oMap, sMap, es);
    Noninterference(oMap, sMap, st, st1, Done(oMap, sMap, es));
  }

  /** HIGH h writes to x, which has no level, and the monitor crashes; so LOW l does not get to
      write to o. */
  lemma CrashInterferes()
    ensures var oMap, sMap := map["o" := LOW], map["h" := HIGH, "l" := LOW];
            var es := [Write("h", "x", 5), Write("l", "o", 7)];
            var st := State([Elem("o", 0)], [Elem("h", 0), Elem("l", 0)]);
            && (forall i :: 0 <= i < |es| ==> Checked(oMap, sMap, es[i]) == es[i]) && !CrashHarmless(oMap, sMap, es)
            && !LowEquivalent(oMap, sMap, Halted(oMap, sMap, st, es), Halted(oMap, sMap, st, Purge(sMap, es)))
  {
    var oMap: Levels, sMap: Levels := map["o" := LOW], map["h" := HIGH, "l" := LOW];
    var es := [Write("h", "x", 5), Write("l", "o", 7)];
    var st := State([Elem("o", 0)], [Elem("h", 0), Elem("l", 0)]);
    assert Fold("h") == "h" && Fold("l") == "l" && Fold("o") == "o" && Fold("x") == "x";
    assert Purge(sMap, es) == [es[1]] by { assert es[1..] == [es[1]]; }
    assert Done(oMap, sMap, es) == [];
    assert Done(oMap, sMap, [es[1]]) == [es[1]];
    assert Halted(oMap, sMap, st, es) == st;
    assert Halted(oMap, sMap, st, [es[1]]) == Step(oMap, sMap, st, es[1]) == State([Elem("o", 7)], st.subjList);
    assert es[0 + 1..] == [es[1]];
  }

  function CheckedAll(oMap: Levels, sMap: Levels, es: seq<Instruction>): (cs: seq<Instruction>)
    ensures |cs| == |es|
  {
    seq(|es|, i requires 0 <= i < |es| => Checked(oMap, sMap, es[i]))
  }

  // ----- what the driver shows -----

  /** The lists have the subject and the object of the instruction. */
  predicate Found(st: State, e: Instruction) {
    !e.Bad? && Find(st.objList, e.obj, 0) < |st.objList| && Find(st.subjList, e.subj, 0) < |st.subjList|
  }

  function ValueOf(st: State, obj: string): int {
    var k := Find(st.objList, obj, 0);
    if k < |st.objList| then st.objList[k].value else 0
  }

  /** The subject field of the monitor after permission(): it stays if a read is granted, but the
      object or the subject is not found. */
  function LastSubject(oMap: Levels, sMap: Levels, st: State, last: Elem, e: Instruction): Elem {
    if !e.Read? || Granted(oMap, sMap, e).None? then last
    else if Granted(oMap, sMap, e) == Some(false) then Elem(e.subj, 0)
    else if Found(st, e) then Elem(e.subj, ValueOf(st, e.obj))
    else last
  }

  function LastObject(oMap: Levels, sMap: Levels, st: State, last: Elem, e: Instruction): Elem {
    if e.Write? && Granted(oMap, sMap, e) == Some(true) && Found(st, e) then Elem(e.obj, e.value) else last
  }

  /** The monitor, and the driver's own two subjects and two objects. */
  datatype View = View(st: State, lastSubject: Elem, lastObject: Elem, s1: Elem, s2: Elem, o1: Elem, o2: Elem)

  /** One round of the driver. */
  function ViewStep(oMap: Levels, sMap: Levels, v: View, e: Instruction): View {
    var lastSubject := LastSubject(oMap, sMap, v.st, v.lastSubject, e);
    var lastObject := LastObject(oMap, sMap, v.st, v.lastObject, e);
    var writes := e.Write? && Granted(oMap, sMap, e) == Some(true);
    View(Step(oMap, sMap, v.st, e), lastSubject, lastObject,
         if e.Read? && EqualsIgnoreCase(v.s1.name, e.subj) then lastSubject else v.s1,
         if e.Read? && !EqualsIgnoreCase(v.s1.name, e.subj) && EqualsIgnoreCase(v.s2.name, e.subj) then lastSubject else v.s2,
         if writes && EqualsIgnoreCase(v.o1.name, e.obj) then lastObject else v.o1,
         if writes && !EqualsIgnoreCase(v.o1.name, e.obj) && EqualsIgnoreCase(v.o2.name, e.obj) then lastObject else v.o2)
  }

  function ViewRun(oMap: Levels, sMap: Levels, v: View, es: seq<Instruction>): View
    decreases |es|
  {
    if es == [] then v else ViewRun(oMap, sMap, ViewStep(oMap, sMap, v, es[0]), es[1..])
  }

  /** The instruction is granted, but not done: the driver copies what the monitor had before. */
  predicate Stale(oMap: Levels, sMap: Levels, st: State, e: Instruction) {
    Granted(oMap, sMap, e) == Some(true) && !Found(st, e)
  }

  /** What the driver copies is the element of the instruction's own subject exactly if it is not
      stale, or the stale element happens to be of that subject. */
  lemma CopiedSubject(oMap: Levels, sMap: Levels, v: View, e: Instruction)
    requires e.Read? && Granted(oMap, sMap, e).Some? && EqualsIgnoreCase(v.s1.name, e.subj)
    ensures EqualsIgnoreCase(ViewStep(oMap, sMap, v, e).s1.name, e.subj) <==>
              !Stale(oMap, sMap, v.st, e) || EqualsIgnoreCase(v.lastSubject.name, e.subj)
  {
    hide Fold, Find, Step;
  }

  /** What the driver shows of its first subject after a read by that: the value of the object if
      the read was allowed, and 0 if it was not. */
  lemma ShownRead(oMap: Levels, sMap: Levels, v: View, subj: string, obj: string, i: nat)
    requires Fold(subj) in sMap && EqualsIgnoreCase(v.s1.name, subj)
    ensures !ReadAllowed(oMap, sMap, subj, obj) ==> ViewStep(oMap, sMap, v, Read(subj, obj)).s1 == Elem(subj, 0)
    ensures ReadAllowed(oMap, sMap, subj, obj) && FirstOf(v.st.objList, obj, i) && HasName(v.st.subjList, subj) ==>
              ViewStep(oMap, sMap, v, Read(subj, obj)).s1 == Elem(subj, v.st.objList[i].value)
  {
    hide Fold, Step;
  }

  /** What it shows of its first object after a write to that. */
  lemma ShownWrite(oMap: Levels, sMap: Levels, v: View, subj: string, obj: string, value: int)
    requires EqualsIgnoreCase(v.o1.name, obj) && HasName(v.st.objList, obj) && HasName(v.st.subjList, subj)
    ensures ViewStep(oMap, sMap, v, Write(subj, obj, value)).o1 ==
              if WriteAllowed(oMap, sMap, subj, obj) then Elem(obj, value) else v.o1
  {
    hide Fold, Step;
  }

  /** The same element, unless it is HIGH. */
  predicate SameUnlessHigh(levels: Levels, x: Elem, y: Elem) {
    EqualsIgnoreCase(x.name, y.name) && (!IsHigh(levels, x.name) ==> x == y)
  }

  ghost predicate ViewsAlike(oMap: Levels, sMap: Levels, v: View, w: View) {
    && LowEquivalent(oMap, sMap, v.st, w.st)
    && SameUnlessHigh(sMap, v.s1, w.s1) && SameUnlessHigh(sMap, v.s2, w.s2)
    && SameUnlessHigh(oMap, v.o1, w.o1) && SameUnlessHigh(oMap, v.o2, w.o2)
  }

  /** The same names, but for case. */
  ghost predicate SameNames(a: seq<Elem>, b: seq<Elem>) {
    |a| == |b| && forall i :: 0 <= i < |a| ==> EqualsIgnoreCase(a[i].name, b[i].name)
  }

  lemma {:induction false} FindByName(a: seq<Elem>, b: seq<Elem>, name: string, i: nat)
    requires SameNames(a, b) && i <= |a|
    ensures Find(b, name, i) == Find(a, name, i)
    decreases |a| - i
  {
    hide Fold;
    if i < |a| {
      FindByName(a, b, name, i + 1);
    }
  }

  lemma NamesStay(oMap: Levels, sMap: Levels, st: State, e: Instruction)
    ensures SameNames(st.objList, Step(oMap, sMap, st, e).objList) && SameNames(st.subjList, Step(oMap, sMap, st, e).subjList)
  {
    hide Fold, Find;
  }

  /** Which instructions are stale does not change in a run. */
  lemma StaleStays(oMap: Levels, sMap: Levels, st: State, e: Instruction, f: Instruction)
    ensures Stale(oMap, sMap, Step(oMap, sMap, st, e), f) == Stale(oMap, sMap, st, f)
  {
    hide Fold, Find, Step, Granted;
    NamesStay(oMap, sMap, st, e);
    if !f.Bad? {
      FindByName(st.objList, Step(oMap, sMap, st, e).objList, f.obj, 0);
      FindByName(st.subjList, Step(oMap, sMap, st, e).subjList, f.subj, 0);
    }
  }

  lemma StaleAlike(oMap: Levels, sMap: Levels, st: State, st1: State, f: Instruction)
    requires LowEquivalent(oMap, sMap, st, st1)
    ensures Stale(oMap, sMap, st1, f) == Stale(oMap, sMap, st, f) && Found(st1, f) == Found(st, f)
  {
    hide Fold, Find, Granted;
    if !f.Bad? {
      FindByName(st.objList, st1.objList, f.obj, 0);
      FindByName(st.subjList, st1.subjList, f.subj, 0);
    }
  }

  /** A HIGH subject's instruction is not seen in the driver either, if it is not stale. */
  lemma HighUnseenInView(oMap: Levels, sMap: Levels, v: View, e: Instruction)
    requires ByHigh(sMap, e) && !Stale(oMap, sMap, v.st, e)
    ensures ViewsAlike(oMap, sMap, v, ViewStep(oMap, sMap, v, e))
  {
    hide Fold, Find, Step, LowEquivalent;
    HighUnseen(oMap, sMap, v.st, e);
  }

  /** Another subject's instruction is shown alike. */
  lemma ShownAlike(oMap: Levels, sMap: Levels, v: View, w: View, e: Instruction)
    requires ViewsAlike(oMap, sMap, v, w) && !ByHigh(sMap, e) && !Stale(oMap, sMap, v.st, e) && !Crashes(oMap, sMap, e)
    ensures ViewsAlike(oMap, sMap, ViewStep(oMap, sMap, v, e), ViewStep(oMap, sMap, w, e))
  {
    hide Fold, Step, LowEquivalent, Find;
    LowConsistent(oMap, sMap, v.st, w.st, e);
    StaleAlike(oMap, sMap, v.st, w.st, e);
    if e.Read? && Granted(oMap, sMap, e) == Some(true) {
      SameValue(oMap, sMap, v.st, w.st, e.obj);
    }
  }

  lemma SameValue(oMap: Levels, sMap: Levels, st: State, st1: State, obj: string)
    requires LowEquivalent(oMap, sMap, st, st1) && !IsHigh(oMap, obj)
    ensures ValueOf(st1, obj) == ValueOf(st, obj)
  {
    hide Fold;
    SameFind(oMap, st.objList, st1.objList, obj, 0);
  }

  /** Without crashes and stale instructions, the driver shows the same of all subjects and objects
      but the HIGH ones, whether or not the HIGH subjects act. */
  lemma {:induction false} ViewNoninterference(oMap: Levels, sMap: Levels, v: View, w: View, es: seq<Instruction>)
    requires ViewsAlike(oMap, sMap, v, w)
    requires forall i :: 0 <= i < |es| ==> !Stale(oMap, sMap, v.st, es[i]) && !Crashes(oMap, sMap, es[i])
    ensures ViewsAlike(oMap, sMap, ViewRun(oMap, sMap, v, es), ViewRun(oMap, sMap, w, Purge(sMap, es)))
    decreases |es|
  {
    hide ViewsAlike, ByHigh, Stale, Crashes, Step;
    if es != [] {
      var next := ViewStep(oMap, sMap, v, es[0]);
      forall i | 0 <= i < |es[1..]|
        ensures !Stale(oMap, sMap, next.st, es[1..][i])
      {
        StaleStays(oMap, sMap, v.st, es[0], es[1..][i]);
      }
      if ByHigh(sMap, es[0]) {
        HighUnseenInView(oMap, sMap, v, es[0]);
        ViewsChained(oMap, sMap, v, next, w);
        assert Purge(sMap, es) == Purge(sMap, es[1..]);
        ViewNoninterference(oMap, sMap, next, w, es[1..]);
      } else {
        ShownAlike(oMap, sMap, v, w, es[0]);
        assert Purge(sMap, es)[0] == es[0] && Purge(sMap, es)[1..] == Purge(sMap, es[1..]);
        ViewNoninterference(oMap, sMap, next, ViewStep(oMap, sMap, w, es[0]), es[1..]);
      }
    }
  }

  lemma ViewsChained(oMap: Levels, sMap: Levels, v: View, next: View, w: View)
    requires ViewsAlike(oMap, sMap, v, next) && ViewsAlike(oMap, sMap, v, w)
    ensures ViewsAlike(oMap, sMap, next, w)
  {
    hide Fold, LowEquivalent;
    Chained(oMap, sMap, v.st, next.st, w.st);
  }

  /** HIGH h reads p; then LOW l reads x, which is unknown and not in the list, and the driver
      takes the element of h, with the value of p, for that of l. */
  lemma StaleInterferes()
    ensures var oMap, sMap := map["p" := HIGH], map["h" := HIGH, "l" := LOW];
            var v := View(State([Elem("p", 5)], [Elem("h", 0), Elem("l", 0)]), Elem("", 0), Elem("", 0),
                          Elem("h", 0), Elem("l", 0), Elem("p", 5), Elem("o", 0));
            var es := [Read("h", "p"), Read("l", "x")];
            && (forall i :: 0 <= i < |es| ==> Checked(oMap, sMap, es[i]) == es[i] && !Crashes(oMap, sMap, es[i]))
            && Stale(oMap, sMap, v.st, es[1])
            && ViewRun(oMap, sMap, v, es).s2 == Elem("h", 5) && ViewRun(oMap, sMap, v, Purge(sMap, es)).s2 == Elem("", 0)
  {
    var oMap: Levels, sMap: Levels := map["p" := HIGH], map["h" := HIGH, "l" := LOW];
    var v := View(State([Elem("p", 5)], [Elem("h", 0), Elem("l", 0)]), Elem("", 0), Elem("", 0),
                  Elem("h", 0), Elem("l", 0), Elem("p", 5), Elem("o", 0));
    var es := [Read("h", "p"), Read("l", "x")];
    assert Fold("h") == "h" && Fold("l") == "l" && Fold("p") == "p" && Fold("x") == "x";
    assert es[1..] == [es[1]];
    assert Purge(sMap, es) == [es[1]];
    var v1 := ViewStep(oMap, sMap, v, es[0]);
    assert v1.lastSubject == Elem("h", 5) && v1.s2 == Elem("l", 0);
    NamesStay(oMap, sMap, v.st, es[0]);
    assert Find(v.st.objList, "x", 0) == 1;
    FindByName(v.st.objList, v1.st.objList, "x", 0);
    assert ViewRun(oMap, sMap, v, es) == ViewStep(oMap, sMap, v1, es[1]);
    assert ViewRun(oMap, sMap, v, [es[1]]) == ViewStep(oMap, sMap, v, es[1]);
  }

  // ----- ReferenceMonitor -----

  class ReferenceMonitor {
    var objList: seq<Elem>
    var subjList: seq<Elem>
    var lastObject: Elem
    var lastSubject: Elem
    const oMap: Levels
    const sMap: Levels

    constructor (oMap: Levels, sMap: Levels)
      ensures objList == subjList == [] && lastObject == lastSubject == Elem("", 0) && this.oMap == oMap && this.sMap == sMap
    {
      objList, subjList, lastObject, lastSubject := [], [], Elem("", 0), Elem("", 0);
      this.oMap, this.sMap := oMap, sMap;
    }

    ghost function Abs(): State
      reads this
    {
      State(objList, subjList)
    }

    /** permission(): whether it is granted, or crashed with a null pointer. */
    method Permission(e: Instruction) returns (granted: bool, crashed: bool)
      modifies this
      ensures crashed <==> (e.Read? && Fold(e.subj) !in sMap) || (e.Write? && Fold(e.obj) !in oMap)
      ensures granted <==> (e.Read? && ReadAllowed(oMap, sMap, e.subj, e.obj)) || (e.Write? && WriteAllowed(oMap, sMap, e.subj, e.obj))
      ensures Abs() == Step(oMap, sMap, old(Abs()), e)
      ensures lastSubject == LastSubject(oMap, sMap, old(Abs()), old(lastSubject), e)
      ensures lastObject == LastObject(oMap, sMap, old(Abs()), old(lastObject), e)
    {
      hide Fold, Find, Assign;
      granted, crashed := false, false;
      match e
      case Read(s, o) =>
        var level := Get(sMap, s);
        if level.None? {
          return false, true;
        }
        if level.value.Dominates(Get(oMap, o)) {
          ProcessInstruction(e);
          return true, false;
        } else {
          lastSubject := Elem(s, 0);
        }
      case Write(s, o, _) =>
        var level := Get(oMap, o);
        if level.None? {
          return false, true;
        }
        if level.value.Dominates(Get(sMap, s)) {
          ProcessInstruction(e);
          return true, false;
        }
      case Bad =>
    }

    /** ObjectManager.processInstruction() */
    method ProcessInstruction(e: Instruction)
      modifies this
      ensures Abs() == Process(old(Abs()), e)
      ensures lastSubject == if e.Read? && Found(old(Abs()), e) then Elem(e.subj, ValueOf(old(Abs()), e.obj)) else old(lastSubject)
      ensures lastObject == if e.Write? && Found(old(Abs()), e) then Elem(e.obj, e.value) else old(lastObject)
    {
      hide Fold;
      match e
      case Read(s, o) =>
        var j := FirstNamed(objList, o);
        if j < |objList| {
          var i := FirstNamed(subjList, s);
          if i < |subjList| {
            var newElem := Elem(s, objList[j].value);
            subjList := subjList[i := newElem];
            lastSubject := subjList[i];
          }
        }
      case Write(s, o, v) =>
        var j := FirstNamed(subjList, s);
        if j < |subjList| {
          var i := FirstNamed(objList, o);
          if i < |objList| {
            var newElem := Elem(o, v);
            objList := objList[i := newElem];
            lastObject := objList[i];
          }
        }
      case Bad =>
    }

    /** The loops over a list, which stop at the first element of that name. */
    static method FirstNamed(list: seq<Elem>, name: string) returns (i: nat)
      ensures i == Find(list, name, 0)
    {
      hide Fold;
      i := 0;
      while i < |list| && !EqualsIgnoreCase(list[i].name, name)
        invariant i <= |list| && Find(list, name, i) == Find(list, name, 0)
      {
        i := i + 1;
      }
    }
  }

  // ----- SecureSystem -----

  lemma {:induction false} ViewOneMore(oMap: Levels, sMap: Levels, v: View, es: seq<Instruction>, e: Instruction)
    ensures ViewRun(oMap, sMap, v, es + [e]) == ViewStep(oMap, sMap, ViewRun(oMap, sMap, v, es), e)
    decreases |es|
  {
    hide ViewStep;
    if es != [] {
      assert (es + [e])[1..] == es[1..] + [e];
      ViewOneMore(oMap, sMap, ViewStep(oMap, sMap, v, es[0]), es[1..], e);
    }
  }

  /** The state of the monitor within the view. */
  lemma {:induction false} ViewState(oMap: Levels, sMap: Levels, v: View, es: seq<Instruction>)
    ensures ViewRun(oMap, sMap, v, es).st == Run(oMap, sMap, v.st, es)
    decreases |es|
  {
    hide Step;
    if es != [] {
      ViewState(oMap, sMap, ViewStep(oMap, sMap, v, es[0]), es[1..]);
    }
  }

  class SecureSystem {
    const monitor: ReferenceMonitor
    var s1: Elem
    var s2: Elem
    var o1: Elem
    var o2: Elem

    constructor (monitor: ReferenceMonitor, o1: Elem, o2: Elem, s1: Elem, s2: Elem)
      ensures this.monitor == monitor && this.o1 == o1 && this.o2 == o2 && this.s1 == s1 && this.s2 == s2
    {
      this.monitor, this.o1, this.o2, this.s1, this.s2 := monitor, o1, o2, s1, s2;
    }

    ghost function Shown(): View
      reads this, monitor
    {
      View(monitor.Abs(), monitor.lastSubject, monitor.lastObject, s1, s2, o1, o2)
    }

    /** The copies that follow permission(). */
    method Copy(e: Instruction, granted: bool)
      modifies this
      ensures s1 == if e.Read? && EqualsIgnoreCase(old(s1).name, e.subj) then monitor.lastSubject else old(s1)
      ensures s2 == if e.Read? && !EqualsIgnoreCase(old(s1).name, e.subj) && EqualsIgnoreCase(old(s2).name, e.subj) then monitor.lastSubject
                    else old(s2)
      ensures o1 == if e.Write? && granted && EqualsIgnoreCase(old(o1).name, e.obj) then monitor.lastObject else old(o1)
      ensures o2 == if e.Write? && granted && !EqualsIgnoreCase(old(o1).name, e.obj) && EqualsIgnoreCase(old(o2).name, e.obj)
                    then monitor.lastObject else old(o2)
    {
      hide Fold;
      if e.Read? {
        if EqualsIgnoreCase(s1.name, e.subj) {
          s1 := monitor.lastSubject;
        } else if EqualsIgnoreCase(s2.name, e.subj) {
          s2 := monitor.lastSubject;
        }
      }
      if e.Write? && granted {
        if EqualsIgnoreCase(o1.name, e.obj) {
          o1 := monitor.lastObject;
        } else if EqualsIgnoreCase(o2.name, e.obj) {
          o2 := monitor.lastObject;
        }
      }
    }

    /** main(): check each instruction, hand it to permission(), and copy; up to a crash. */
    method Drive(es: seq<Instruction>) returns (done: nat)
      modifies this, monitor
      ensures done == FirstCrash(monitor.oMap, monitor.sMap, CheckedAll(monitor.oMap, monitor.sMap, es))
      ensures Shown() == ViewRun(monitor.oMap, monitor.sMap, old(Shown()),
                                 Done(monitor.oMap, monitor.sMap, CheckedAll(monitor.oMap, monitor.sMap, es)))
      ensures monitor.Abs() == Halted(monitor.oMap, monitor.sMap, old(monitor.Abs()), CheckedAll(monitor.oMap, monitor.sMap, es))
    {
      hide Step, Checked, Fold, LastSubject, LastObject, Run;
      done := 0;
      ghost var oMap, sMap, v0 := monitor.oMap, monitor.sMap, Shown();
      ghost var cs := CheckedAll(oMap, sMap, es);
      while done < |es|
        invariant done <= |es| && forall i :: 0 <= i < done ==> !Crashes(oMap, sMap, cs[i])
        invariant Shown() == ViewRun(oMap, sMap, v0, cs[..done])
      {
        ghost var v := Shown();
        var granted, crashed := monitor.Permission(Checked(monitor.oMap, monitor.sMap, es[done]));
        if crashed {
          CrashedStep(oMap, sMap, v, cs[done]);
          ViewState(oMap, sMap, v0, cs[..done]);
          return;
        }
        Copy(Checked(monitor.oMap, monitor.sMap, es[done]), granted);
        ViewOneMore(oMap, sMap, v0, cs[..done], cs[done]);
        assert cs[..done + 1] == cs[..done] + [cs[done]];
        done := done + 1;
      }
      ViewState(oMap, sMap, v0, cs[..done]);
    }
  }

  lemma CrashedStep(oMap: Levels, sMap: Levels, v: View, e: Instruction)
    requires Crashes(oMap, sMap, e)
    ensures Step(oMap, sMap, v.st, e) == v.st
    ensures LastSubject(oMap, sMap, v.st, v.lastSubject, e) == v.lastSubject && LastObject(oMap, sMap, v.st, v.lastObject, e) == v.lastObject
  {
  }
}
