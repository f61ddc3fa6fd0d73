/**
  Which call sequences the encoder accepts from the start: the calls of a forest,
  and whatever leads to an Open by which an earlier error is forgotten.
 */
module EncoderLegal {
  import opened CborHead
  import opened EncoderSpec
  import opened EncoderSafety
  import opened CborForest
  import opened EncoderEndings

  // ----- legal sequences -----

  /** ops are the calls of a forest within the limits of the encoder and of the buffer. */
  ghost predicate Describes(f: seq<Elem>, ops: seq<Op>, capacity: nat) {
    Ops(f) == ops && FitAll(f, 0, 0, false) && |SerialAll(f)| <= capacity
  }

  ghost predicate Legal(ops: seq<Op>, capacity: nat) {
    exists f :: Describes(f, ops, capacity)
  }

  /**
    The encoder accepts exactly the well-nested, type-matched sequences within its
    limits, provided no level is opened after an error or where its count overflows.
   */
  lemma AcceptsExactlyLegal(ops: seq<Op>, capacity: nat)
    ensures Legal(ops, capacity) <==> Clean(Init(capacity), ops) && FinishError(Run(Init(capacity), ops)) == Success
    ensures forall f :: Describes(f, ops, capacity) ==> Run(Init(capacity), ops).data == SerialAll(f)
  {
    hide Run, Clean, Ops, FitAll, SerialAll;
    forall f | Describes(f, ops, capacity)
      ensures Clean(Init(capacity), ops) && FinishError(Run(Init(capacity), ops)) == Success
      ensures Run(Init(capacity), ops).data == SerialAll(f)
    {
      EncodesForest(capacity, f);
      AllClean(Init(capacity), f);
    }
    if Clean(Init(capacity), ops) && FinishError(Run(Init(capacity), ops)) == Success {
      InitSafe(capacity);
      var c := AcceptedEnds(Init(capacity), ops);
      NothingOpen(capacity, c);
      assert Describes(c.f, ops, capacity);
    }
  }

  lemma InitSafe(capacity: nat)
    ensures Healthy(Init(capacity)) && Safe(Init(capacity))
  {
  }

  /** At the start there is nothing to close. */
  lemma NothingOpen(capacity: nat, c: Ending)
    requires c.Ends(Init(capacity))
    ensures c.Last? && FitAll(c.f, 0, 0, false) && |SerialAll(c.f)| <= capacity && c.Calls() == Ops(c.f)
  {
    FitFromStart(c.f, 0, 0, false);
    EndsIs(Init(capacity), c);
    hide FitFrom, FitAll, SerialAll, Count, AfterClose;
  }

  // ----- all accepted runs -----

  /** A level is opened after an error, or where the count around it overflows: what was wrong is forgotten. */
  predicate Forgets(s: State, op: Op) {
    op.Opening() && !(s.error == Success && s.top.count < MAX_ITEMS - 1)
  }

  /** How many calls there are up to the last such Open, it included; none without one. */
  function Restart(s: State, ops: seq<Op>): (k: nat)
    ensures k <= |ops|
    decreases ops
  {
    if ops == [] then 0
    else
      var k := Restart(Step(s, ops[0]), ops[1..]);
      if k > 0 || Forgets(s, ops[0]) then k + 1 else 0
  }

  /** From there on the run is clean. */
  lemma {:induction false} RestartIsLast(s: State, ops: seq<Op>)
    ensures var k := Restart(s, ops);
            && Clean(Run(s, ops[..k]), ops[k..])
            && (k > 0 ==> Forgets(Run(s, ops[..k - 1]), ops[k - 1]))
    decreases ops
  {
    hide *;
    RestartIs(s, ops);
    assert ops[..0] == [] && ops[0..] == ops;
    if ops == [] {
      NothingRun(s);
    } else {
      RestartIsLast(Step(s, ops[0]), ops[1..]);
      OneCallEarlier(s, ops);
    }
  }

  lemma RestartIs(s: State, ops: seq<Op>)
    ensures ops == [] ==> Restart(s, ops) == 0
    ensures ops != [] ==>
              var k := Restart(Step(s, ops[0]), ops[1..]);
              Restart(s, ops) == if k > 0 || Forgets(s, ops[0]) then k + 1 else 0
  {
    hide Step, Forgets;
  }

  lemma NothingRun(s: State)
    ensures Run(s, []) == s && Clean(s, [])
  {
  }

  lemma OneCallEarlier(s: State, ops: seq<Op>)
    requires ops != []
    requires var t, rest := Step(s, ops[0]), ops[1..];
             var k := Restart(t, rest);
             Clean(Run(t, rest[..k]), rest[k..]) && (k > 0 ==> Forgets(Run(t, rest[..k - 1]), rest[k - 1]))
    ensures var k := Restart(s, ops);
            && Clean(Run(s, ops[..k]), ops[k..])
            && (k > 0 ==> Forgets(Run(s, ops[..k - 1]), ops[k - 1]))
  {
    hide *;
    var k := Restart(s, ops);
    RestartIs(s, ops);
    Shifted(ops, k);
    if k <= 1 {
      NothingRun(s);
      NothingRun(Step(s, ops[0]));
    }
    if k == 0 {
      CleanCons(s, ops);
    } else {
      RunCons(s, ops[0], ops[1..][..k - 1]);
    }
    if k > 1 {
      RunCons(s, ops[0], ops[1..][..k - 2]);
    }
  }

  lemma Shifted(ops: seq<Op>, k: nat)
    requires ops != [] && k <= |ops|
    ensures ops[..0] == [] && ops[0..] == ops && ops[1..][..0] == [] && ops[1..][0..] == ops[1..]
    ensures k > 0 ==> ops[..k] == [ops[0]] + ops[1..][..k - 1] && ops[k..] == ops[1..][k - 1..]
    ensures k > 1 ==> ops[..k - 1] == [ops[0]] + ops[1..][..k - 2] && ops[k - 1] == ops[1..][k - 2]
  {
  }

  lemma CleanCons(s: State, ops: seq<Op>)
    requires ops != [] && !Forgets(s, ops[0]) && Clean(Step(s, ops[0]), ops[1..])
    ensures Clean(s, ops)
  {
    hide Step;
  }

  lemma RunCons(s: State, op: Op, ops: seq<Op>)
    ensures Run(s, [op] + ops) == Run(Step(s, op), ops)
  {
    assert ([op] + ops)[1..] == ops;
  }

  /**
    Which runs are accepted, legal or not: the last Open that forgets something
    goes through, the buffer is not full, and the calls behind that Open put
    forests that fit into the levels open there and close these one by one, type
    by type.  Whatever happened before has no part in it.
   */
  lemma AcceptedIff(ops: seq<Op>, capacity: nat)
    ensures var k := Restart(Init(capacity), ops);
            var t := Run(Init(capacity), ops[..k]);
            FinishError(Run(Init(capacity), ops)) == Success <==>
              && (k > 0 ==> OpenGoesThrough(Run(Init(capacity), ops[..k - 1]), ops[k - 1]))
              && !t.full
              && exists c: Ending :: c.Ends(t) && c.Calls() == ops[k..]
  {
    hide Run, Restart, Clean, Ending.Ends, Ending.Calls, OpenGoesThrough;
    var k := Restart(Init(capacity), ops);
    var t := Run(Init(capacity), ops[..k]);
    InitSafe(capacity);
    RestartIsLast(Init(capacity), ops);
    RunSafe(Init(capacity), ops[..k]);
    SafeIsSmall(t);
    LastOpen(ops, capacity, k);
    assert ops == ops[..k] + ops[k..];
    RunConcat(Init(capacity), ops[..k], ops[k..]);
    if GoesThrough(t) {
      CleanAcceptsIff(t, ops[k..]);
    } else {
      TroubleStays(t, ops[k..]);
    }
  }

  lemma SafeIsSmall(t: State)
    requires Safe(t)
    ensures |t.data| <= t.capacity && |t.below| <= MAX_NESTING
  {
  }

  lemma LastOpen(ops: seq<Op>, capacity: nat, k: nat)
    requires k == Restart(Init(capacity), ops)
    ensures Run(Init(capacity), ops[..k]).error == Success <==>
              (k > 0 ==> OpenGoesThrough(Run(Init(capacity), ops[..k - 1]), ops[k - 1]))
  {
    hide Restart, Step, OpenGoesThrough, Safe;
    if k == 0 {
      assert ops[..k] == [];
    } else {
      var before, op := Run(Init(capacity), ops[..k - 1]), ops[k - 1];
      InitSafe(capacity);
      RestartIsLast(Init(capacity), ops);
      RunSafe(Init(capacity), ops[..k - 1]);
      SafeIsSmall(before);
      assert ops[..k] == ops[..k - 1] + [op];
      RunConcat(Init(capacity), ops[..k - 1], [op]);
      RunOne(before, op);
      ErrorForgottenIff(before, op);
    }
  }

  /** From a state without error, the clean runs that are accepted are those that end what is open. */
  lemma CleanAcceptsIff(s: State, ops: seq<Op>)
    requires Healthy(s) && Safe(s)
    ensures Clean(s, ops) && FinishError(Run(s, ops)) == Success <==> exists c: Ending :: c.Ends(s) && c.Calls() == ops
  {
    hide Run, Clean, Safe, Ending.Ends, Ending.Calls;
    if Clean(s, ops) && FinishError(Run(s, ops)) == Success {
      var c := AcceptedEnds(s, ops);
    }
    if c: Ending :| c.Ends(s) && c.Calls() == ops {
      EndingRuns(s, c);
    }
  }

  /** One close too many, then an array: not legal, and yet Finish reports success. */
  lemma ForgottenErrorExample()
    ensures var ops := [OpClose(DefArray), OpOpen(DefArray), OpClose(DefArray)];
            && !Legal(ops, 1)
            && FinishError(Run(Init(1), ops)) == Success
            && Run(Init(1), ops).data == [0x80]
  {
    var ops := [OpClose(DefArray), OpOpen(DefArray), OpClose(DefArray)];
    CloseTooEarly();
    OpenForgets();
    CloseEmptyArray();
    hide Step;
    var s1 := Init(1).(error := TooManyCloses);
    var s2 := State(1, [], false, Success, [Level(0, 0, ARRAY)], Level(0, 0, ARRAY));
    assert ops[1..] == [ops[1], ops[2]] && ops[1..][1..] == [ops[2]];
    RunOne(s2, ops[2]);
    assert !Clean(Init(1), ops);
    AcceptsExactlyLegal(ops, 1);
  }

  lemma CloseTooEarly()
    ensures Step(Init(1), OpClose(DefArray)) == Init(1).(error := TooManyCloses)
  {
  }

  lemma OpenForgets()
    ensures Step(Init(1).(error := TooManyCloses), OpOpen(DefArray))
            == State(1, [], false, Success, [Level(0, 0, ARRAY)], Level(0, 0, ARRAY))
  {
  }

  lemma CloseEmptyArray()
    ensures Step(State(1, [], false, Success, [Level(0, 0, ARRAY)], Level(0, 0, ARRAY)), OpClose(DefArray))
            == Init(1).(data := [0x80])
  {
    assert Head(ARRAY, 0, 0) == [0x80];
  }
}
