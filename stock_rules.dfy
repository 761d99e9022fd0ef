/**
 * What the encounter create and update handlers do to stored state, stated
 * as functions over values. The class in AtencionViews runs the handlers'
 * loops in place and is proved equal to these functions; the properties of
 * the handlers are proved here, about the functions.
 *
 * Every formset row carries its own copy of its medication record, loaded
 * when the formset was validated, before anything was written. A handler
 * therefore reads the stock as it was before the submission (`snap` below)
 * and writes back its own copy.
 */
module StockRules {
  import opened Wrappers
  import opened AttentionModels

  // ---------------------------------------------------------------------------
  // Submissions, messages, outcomes
  // ---------------------------------------------------------------------------

  /** A filled, non-deleted row of the detail formset on create. */
  datatype CreateRow = CreateRow(medicamento: nat, cantidad: nat)

  /** A new or changed row on update; `pk` is None for a row not saved before. */
  datatype UpdateRow = UpdateRow(pk: Option<nat>, medicamento: nat, cantidad: nat)

  /** A saved row ticked for deletion on update. */
  datatype DeletedRow = DeletedRow(pk: nat, medicamento: nat, cantidad: nat)

  /** One error message per rejected row: stock below the request, or a quantity of zero. */
  datatype Message = InsufficientStock(medicamento: nat) | NonPositiveQuantity

  /** The audit actions the handlers record: 'A' (added) and 'M' (modified). */
  datatype Action = Added | Modified

  datatype AuditEvent = AuditEvent(atencion: nat, action: Action)

  /**
   * Create either saves the encounter, or shows the messages and saves
   * nothing, or fails inside the transaction (a negative stock value is
   * refused by the database) and saves nothing.
   */
  datatype CreateOutcome = Created(atencion: nat) | Rejected(messages: seq<Message>) | RolledBack

  /** Update either records 'M', or shows the messages after committing what it could. */
  datatype UpdateOutcome = Updated | PartiallyRejected(messages: seq<Message>)

  // ---------------------------------------------------------------------------
  // Collecting messages
  // ---------------------------------------------------------------------------

  /** The positions that produced a message. */
  ghost function Offending(errs: seq<Option<Message>>): set<nat>
  {
    set i: nat | i < |errs| && errs[i].Some?
  }

  lemma OffendingSplit(errs: seq<Option<Message>>)
    requires errs != []
    ensures Offending(errs) ==
              Offending(errs[..|errs| - 1]) + (if errs[|errs| - 1].Some? then {|errs| - 1} else {})
  {
    var init := errs[..|errs| - 1];
    assert forall i :: 0 <= i < |init| ==> init[i] == errs[i];
  }

  /** The messages of the rows that produced one, in row order: no row stops the others. */
  function Collected(errs: seq<Option<Message>>): (msgs: seq<Message>)
    ensures |msgs| == |Offending(errs)|
    ensures msgs == [] <==> forall i :: 0 <= i < |errs| ==> errs[i].None?
  {
    if errs == [] then []
    else
      var init := errs[..|errs| - 1];
      var last := errs[|errs| - 1];
      OffendingSplit(errs);
      assert forall i :: 0 <= i < |init| ==> init[i] == errs[i];
      Collected(init) + (if last.Some? then [last.value] else [])
  }

  /**
   * Row order: the messages of the rows before an offending row, then that
   * row's own message, open the list.
   */
  lemma {:induction false} CollectedInRowOrder(errs: seq<Option<Message>>)
    ensures forall i :: 0 <= i < |errs| && errs[i].Some? ==>
              Collected(errs[..i]) + [errs[i].value] <= Collected(errs)
  {
    if errs != [] {
      var init := errs[..|errs| - 1];
      var last := errs[|errs| - 1];
      CollectedInRowOrder(init);
      assert errs == init + [last];
      CollectedStep(init, last);
      forall i | 0 <= i < |errs| && errs[i].Some?
        ensures Collected(errs[..i]) + [errs[i].value] <= Collected(errs)
      {
        if i < |init| {
          assert init[..i] == errs[..i] && init[i] == errs[i];
        } else {
          assert errs[..i] == init;
        }
      }
    }
  }

  /** Every offending row's message is in the list. */
  lemma CollectedHasEvery(errs: seq<Option<Message>>)
    ensures forall i :: 0 <= i < |errs| && errs[i].Some? ==> errs[i].value in Collected(errs)
  {
    CollectedInRowOrder(errs);
    forall i | 0 <= i < |errs| && errs[i].Some?
      ensures errs[i].value in Collected(errs)
    {
      var pre := Collected(errs[..i]) + [errs[i].value];
      assert pre <= Collected(errs) && pre[|pre| - 1] == errs[i].value;
      assert Collected(errs)[|pre| - 1] == errs[i].value;
    }
  }

  /** Every message in the list is some row's message. */
  lemma {:induction false} CollectedFromRows(errs: seq<Option<Message>>)
    ensures forall k :: 0 <= k < |Collected(errs)| ==>
              exists i :: 0 <= i < |errs| && errs[i] == Some(Collected(errs)[k])
  {
    if errs == [] {
      assert Collected(errs) == [];
    } else {
      var init := errs[..|errs| - 1];
      var last := errs[|errs| - 1];
      CollectedFromRows(init);
      assert errs == init + [last];
      CollectedStep(init, last);
      var msgs := Collected(errs);
      forall k | 0 <= k < |msgs|
        ensures exists i :: 0 <= i < |errs| && errs[i] == Some(msgs[k])
      {
        if k < |Collected(init)| {
          var i :| 0 <= i < |init| && init[i] == Some(Collected(init)[k]);
          assert errs[i] == init[i] && msgs[k] == Collected(init)[k];
        } else {
          assert errs[|errs| - 1] == Some(msgs[k]);
        }
      }
    }
  }

  lemma CollectedStep(errs: seq<Option<Message>>, e: Option<Message>)
    ensures Collected(errs + [e]) == Collected(errs) + (if e.Some? then [e.value] else [])
  {
    assert (errs + [e])[..|errs|] == errs;
  }

  // ---------------------------------------------------------------------------
  // Create (AtencionCreateView.form_valid)
  // ---------------------------------------------------------------------------

  predicate MedsKnown(n: nat, rows: seq<CreateRow>)
  {
    forall i :: 0 <= i < |rows| ==> rows[i].medicamento < n
  }

  /** A create row passes: a positive quantity its own medication has in stock. */
  predicate CreateRowOk(stock: seq<nat>, r: CreateRow)
    requires r.medicamento < |stock|
  {
    0 < r.cantidad <= stock[r.medicamento]
  }

  /** The message for one create row; the stock test comes first. */
  function CreateRowError(stock: seq<nat>, r: CreateRow): (e: Option<Message>)
    requires r.medicamento < |stock|
    ensures e.None? <==> CreateRowOk(stock, r)
    ensures r.cantidad == 0 ==> e == Some(NonPositiveQuantity)
    ensures e == Some(InsufficientStock(r.medicamento)) <==> r.cantidad > stock[r.medicamento]
  {
    if r.cantidad > stock[r.medicamento] then Some(InsufficientStock(r.medicamento))
    else if r.cantidad <= 0 then Some(NonPositiveQuantity)
    else None
  }

  function CreateErrors(stock: seq<nat>, rows: seq<CreateRow>): (errs: seq<Option<Message>>)
    requires MedsKnown(|stock|, rows)
    ensures |errs| == |rows|
  {
    seq(|rows|, i requires 0 <= i < |rows| => CreateRowError(stock, rows[i]))
  }

  ghost function BadCreateRows(stock: seq<nat>, rows: seq<CreateRow>): set<nat>
    requires MedsKnown(|stock|, rows)
  {
    set i: nat | i < |rows| && !CreateRowOk(stock, rows[i])
  }

  /** The validation loop's messages: one per offending row, none when every row passes. */
  function CreateMessages(stock: seq<nat>, rows: seq<CreateRow>): (msgs: seq<Message>)
    requires MedsKnown(|stock|, rows)
    ensures msgs == [] <==> forall i :: 0 <= i < |rows| ==> CreateRowOk(stock, rows[i])
    ensures |msgs| == |BadCreateRows(stock, rows)|
  {
    var errs := CreateErrors(stock, rows);
    assert forall i :: 0 <= i < |rows| ==> errs[i] == CreateRowError(stock, rows[i]);
    assert Offending(errs) == BadCreateRows(stock, rows);
    Collected(errs)
  }

  /**
   * The messages name the offending rows: a row asking more than its medication
   * holds puts that medication's stock message in the list, and a row of zero
   * units the non-positive message.
   */
  lemma CreateMessagesNameRows(stock: seq<nat>, rows: seq<CreateRow>)
    requires MedsKnown(|stock|, rows)
    ensures forall i :: 0 <= i < |rows| && rows[i].cantidad > stock[rows[i].medicamento] ==>
              InsufficientStock(rows[i].medicamento) in CreateMessages(stock, rows)
    ensures forall i :: 0 <= i < |rows| && rows[i].cantidad == 0 ==>
              NonPositiveQuantity in CreateMessages(stock, rows)
  {
    var errs := CreateErrors(stock, rows);
    var msgs := CreateMessages(stock, rows);
    assert msgs == Collected(errs);
    CollectedHasEvery(errs);
    forall i | 0 <= i < |rows| && !CreateRowOk(stock, rows[i])
      ensures CreateRowError(stock, rows[i]).value in msgs
    {
      assert errs[i] == CreateRowError(stock, rows[i]);
    }
  }

  lemma CreateErrorsPrefix(stock: seq<nat>, rows: seq<CreateRow>, i: nat)
    requires MedsKnown(|stock|, rows) && i <= |rows|
    ensures CreateErrors(stock, rows[..i]) == CreateErrors(stock, rows)[..i]
  {
  }

  /** Each offending row's message follows the messages of the rows before it. */
  lemma CreateMessagesInRowOrder(stock: seq<nat>, rows: seq<CreateRow>)
    requires MedsKnown(|stock|, rows)
    ensures forall i :: 0 <= i < |rows| && !CreateRowOk(stock, rows[i]) ==>
              CreateMessages(stock, rows[..i]) + [CreateRowError(stock, rows[i]).value] <= CreateMessages(stock, rows)
  {
    var errs := CreateErrors(stock, rows);
    var msgs := CreateMessages(stock, rows);
    assert msgs == Collected(errs);
    CollectedInRowOrder(errs);
    forall i | 0 <= i < |rows| && !CreateRowOk(stock, rows[i])
      ensures CreateMessages(stock, rows[..i]) + [CreateRowError(stock, rows[i]).value] <= msgs
    {
      CreateErrorsPrefix(stock, rows, i);
      assert errs[i] == CreateRowError(stock, rows[i]);
    }
  }

  /** Every message is an offending row's. */
  lemma CreateMessagesFromRows(stock: seq<nat>, rows: seq<CreateRow>)
    requires MedsKnown(|stock|, rows)
    ensures forall k :: 0 <= k < |CreateMessages(stock, rows)| ==>
              exists i :: 0 <= i < |rows| && !CreateRowOk(stock, rows[i])
                && CreateRowError(stock, rows[i]) == Some(CreateMessages(stock, rows)[k])
  {
    var errs := CreateErrors(stock, rows);
    var msgs := CreateMessages(stock, rows);
    assert msgs == Collected(errs);
    CollectedFromRows(errs);
    forall k | 0 <= k < |msgs|
      ensures exists i :: 0 <= i < |rows| && !CreateRowOk(stock, rows[i]) && CreateRowError(stock, rows[i]) == Some(msgs[k])
    {
      var i :| 0 <= i < |errs| && errs[i] == Some(msgs[k]);
      assert errs[i] == CreateRowError(stock, rows[i]);
    }
  }

  lemma CreateMessagesStep(stock: seq<nat>, rows: seq<CreateRow>, i: nat)
    requires MedsKnown(|stock|, rows) && i < |rows|
    ensures var e := CreateRowError(stock, rows[i]);
            e.Some? ==> CreateMessages(stock, rows[..i + 1]) == CreateMessages(stock, rows[..i]) + [e.value]
    ensures CreateRowError(stock, rows[i]).None? ==> CreateMessages(stock, rows[..i + 1]) == CreateMessages(stock, rows[..i])
  {
    assert CreateErrors(stock, rows[..i + 1]) ==
           CreateErrors(stock, rows[..i]) + [CreateRowError(stock, rows[i])];
    CollectedStep(CreateErrors(stock, rows[..i]), CreateRowError(stock, rows[i]));
    assert CreateMessages(stock, rows[..i]) + [] == CreateMessages(stock, rows[..i]);
  }

  /** Total units requested by the rows. */
  function Requested(rows: seq<CreateRow>): nat
  {
    if rows == [] then 0 else Requested(rows[..|rows| - 1]) + rows[|rows| - 1].cantidad
  }

  lemma {:induction false} RequestedPrefix(rows: seq<CreateRow>, i: nat)
    requires i <= |rows|
    ensures Requested(rows[..i]) <= Requested(rows)
  {
    if i == |rows| {
      assert rows[..i] == rows;
    } else {
      RequestedPrefix(rows[..|rows| - 1], i);
      assert rows[..|rows| - 1][..i] == rows[..i];
    }
  }

  lemma RequestedStep(rows: seq<CreateRow>, i: nat)
    requires i < |rows|
    ensures Requested(rows[..i + 1]) == Requested(rows[..i]) + rows[i].cantidad
  {
    assert rows[..i + 1][..i] == rows[..i];
  }

  /**
   * The medication the deduction loop charges: the loop reuses the variable
   * left over from the validation loop, which names the last row's medication.
   */
  function ChargedMedication(rows: seq<CreateRow>): nat
    requires rows != []
  {
    rows[|rows| - 1].medicamento
  }

  /** Create commits: no row was refused, and the charged medication covers every unit. */
  predicate CreateCommits(stock: seq<nat>, rows: seq<CreateRow>)
    requires MedsKnown(|stock|, rows)
  {
    CreateMessages(stock, rows) == []
    && (rows == [] || Requested(rows) <= stock[ChargedMedication(rows)])
  }

  function CreateResult(stock: seq<nat>, rows: seq<CreateRow>, id: nat): (o: CreateOutcome)
    requires MedsKnown(|stock|, rows)
    ensures o.Rejected? <==> exists i :: 0 <= i < |rows| && !CreateRowOk(stock, rows[i])
    ensures o.Rejected? ==> o.messages == CreateMessages(stock, rows)
    ensures o.Rejected? ==> |o.messages| == |BadCreateRows(stock, rows)|
    ensures o.Created? <==> CreateCommits(stock, rows)
    ensures o.Created? ==> o.atencion == id
  {
    var msgs := CreateMessages(stock, rows);
    if msgs != [] then Rejected(msgs)
    else if rows != [] && Requested(rows) > stock[ChargedMedication(rows)] then RolledBack
    else Created(id)
  }

  /** The stock after a committed create: only the charged medication changes. */
  function CreateStock(stock: seq<nat>, rows: seq<CreateRow>): (s: seq<nat>)
    requires MedsKnown(|stock|, rows) && CreateCommits(stock, rows)
    ensures |s| == |stock|
    ensures forall m :: 0 <= m < |s| && (rows == [] || m != ChargedMedication(rows)) ==> s[m] == stock[m]
    ensures rows != [] ==> s[ChargedMedication(rows)] + Requested(rows) == stock[ChargedMedication(rows)]
  {
    if rows == [] then stock
    else stock[ChargedMedication(rows) := stock[ChargedMedication(rows)] - Requested(rows)]
  }

  /** The detail lines a committed create stores, under consecutive keys from `base`. */
  function NewDetails(base: nat, atencion: nat, rows: seq<CreateRow>): map<nat, DetalleAtencion>
  {
    if rows == [] then map[]
    else
      var last := rows[|rows| - 1];
      NewDetails(base, atencion, rows[..|rows| - 1])[base + |rows| - 1 := DetalleAtencion(atencion, last.medicamento, last.cantidad)]
  }

  /** Row i's line is stored under key base + i, and no other key is used. */
  lemma {:induction false} NewDetailsShape(base: nat, atencion: nat, rows: seq<CreateRow>)
    ensures forall k :: k in NewDetails(base, atencion, rows) <==> base <= k < base + |rows|
    ensures forall i :: 0 <= i < |rows| ==>
              NewDetails(base, atencion, rows)[base + i] == DetalleAtencion(atencion, rows[i].medicamento, rows[i].cantidad)
  {
    if rows != [] {
      var init := rows[..|rows| - 1];
      assert forall i :: 0 <= i < |init| ==> init[i] == rows[i];
      NewDetailsShape(base, atencion, init);
    }
  }

  lemma NewDetailsStep(base: nat, atencion: nat, rows: seq<CreateRow>, i: nat)
    requires i < |rows|
    ensures NewDetails(base, atencion, rows[..i + 1]) ==
              NewDetails(base, atencion, rows[..i])[base + i := DetalleAtencion(atencion, rows[i].medicamento, rows[i].cantidad)]
  {
    assert rows[..i + 1][..i] == rows[..i];
  }

  /** Saving line `i` on top of the stored lines and lines 0 to i - 1 gives the stored lines and lines 0 to i. */
  lemma SaveLineStep(stored: map<nat, DetalleAtencion>, base: nat, atencion: nat, rows: seq<CreateRow>, i: nat)
    requires i < |rows|
    ensures (stored + NewDetails(base, atencion, rows[..i]))[base + i := DetalleAtencion(atencion, rows[i].medicamento, rows[i].cantidad)]
              == stored + NewDetails(base, atencion, rows[..i + 1])
  {
    NewDetailsStep(base, atencion, rows, i);
  }

  /** Every new line belongs to the new encounter and names a medication the rows name. */
  lemma NewDetailsFit(base: nat, atencion: nat, rows: seq<CreateRow>, n: nat)
    requires MedsKnown(n, rows)
    ensures forall k :: k in NewDetails(base, atencion, rows) ==>
              && base <= k < base + |rows|
              && NewDetails(base, atencion, rows)[k].atencion == atencion
              && NewDetails(base, atencion, rows)[k].medicamento < n
  {
    var m := NewDetails(base, atencion, rows);
    NewDetailsShape(base, atencion, rows);
    forall k | k in m
      ensures base <= k < base + |rows| && m[k].atencion == atencion && m[k].medicamento < n
    {
      var i := k - base;
      assert m[base + i] == DetalleAtencion(atencion, rows[i].medicamento, rows[i].cantidad);
    }
  }

  /** A request the clinic can serve: 10 units in stock, 5 requested, then 6 more refused. */
  lemma StockScenario()
    ensures CreateResult([10], [CreateRow(0, 5)], 0) == Created(0)
    ensures CreateStock([10], [CreateRow(0, 5)]) == [5]
    ensures CreateResult([5], [CreateRow(0, 6)], 1) == Rejected([InsufficientStock(0)])
  {
    assert CreateErrors([10], [CreateRow(0, 5)]) == [None];
    assert CreateErrors([5], [CreateRow(0, 6)]) == [Some(InsufficientStock(0))];
    assert [CreateRow(0, 5)][..0] == [];
  }

  /**
   * Rows are checked one by one against the stock read before the submission:
   * two rows of 3 units pass against a stock of 5, and the deduction then
   * fails in the transaction.
   */
  lemma ChecksAreNotCumulative()
    ensures CreateMessages([5], [CreateRow(0, 3), CreateRow(0, 3)]) == []
    ensures CreateResult([5], [CreateRow(0, 3), CreateRow(0, 3)], 0) == RolledBack
  {
    var rows := [CreateRow(0, 3), CreateRow(0, 3)];
    assert CreateErrors([5], rows) == [None, None];
    assert rows[..1][..0] == [];
    assert Requested(rows) == 6;
  }

  // ---------------------------------------------------------------------------
  // Create as evidently intended: each row charges its own medication
  // ---------------------------------------------------------------------------

  /** Units of medication `m` the rows request. */
  function Units(rows: seq<CreateRow>, m: nat): nat
  {
    if rows == [] then 0
    else Units(rows[..|rows| - 1], m) + (if rows[|rows| - 1].medicamento == m then rows[|rows| - 1].cantidad else 0)
  }

  predicate CoversEach(stock: seq<nat>, rows: seq<CreateRow>)
  {
    forall m :: 0 <= m < |stock| ==> Units(rows, m) <= stock[m]
  }

  /** Each row deducts its quantity from its own medication, one after the other. */
  function ChargeEach(stock: seq<nat>, rows: seq<CreateRow>): (s: seq<nat>)
    requires MedsKnown(|stock|, rows) && CoversEach(stock, rows)
    ensures |s| == |stock|
    ensures forall m :: 0 <= m < |stock| ==> s[m] + Units(rows, m) == stock[m]
  {
    if rows == [] then stock
    else
      var init := rows[..|rows| - 1];
      var r := rows[|rows| - 1];
      assert MedsKnown(|stock|, init) by {
        assert forall i :: 0 <= i < |init| ==> init[i] == rows[i];
      }
      assert CoversEach(stock, init) by {
        forall m | 0 <= m < |stock| ensures Units(init, m) <= stock[m] {
          assert Units(rows, m) <= stock[m];
        }
      }
      var s := ChargeEach(stock, init);
      assert Units(rows, r.medicamento) <= stock[r.medicamento];
      s[r.medicamento := s[r.medicamento] - r.cantidad]
  }

  lemma {:induction false} UnitsPrefix(rows: seq<CreateRow>, i: nat, m: nat)
    requires i <= |rows|
    ensures Units(rows[..i], m) <= Units(rows, m)
  {
    if i == |rows| {
      assert rows[..i] == rows;
    } else {
      UnitsPrefix(rows[..|rows| - 1], i, m);
      assert rows[..|rows| - 1][..i] == rows[..i];
    }
  }

  lemma UnitsStep(rows: seq<CreateRow>, i: nat)
    requires i < |rows|
    ensures forall m :: Units(rows[..i + 1], m) ==
              Units(rows[..i], m) + (if rows[i].medicamento == m then rows[i].cantidad else 0)
  {
    assert rows[..i + 1][..i] == rows[..i];
  }

  /** Rows that all name one medication: that medication is charged the whole request, any other nothing. */
  lemma {:induction false} UnitsOfOneMedication(rows: seq<CreateRow>, m: nat, other: nat)
    requires forall i :: 0 <= i < |rows| ==> rows[i].medicamento == m
    ensures Units(rows, m) == Requested(rows)
    ensures other != m ==> Units(rows, other) == 0
  {
    if rows != [] {
      var init := rows[..|rows| - 1];
      assert forall i :: 0 <= i < |init| ==> init[i] == rows[i];
      UnitsOfOneMedication(init, m, other);
    }
  }

  /** Create as intended: every row passes, and each medication covers all the units asked of it. */
  function IntendedCreateResult(stock: seq<nat>, rows: seq<CreateRow>, id: nat): (o: CreateOutcome)
    requires MedsKnown(|stock|, rows)
    ensures o.Rejected? <==> exists i :: 0 <= i < |rows| && !CreateRowOk(stock, rows[i])
    ensures o.Rejected? ==> o.messages == CreateMessages(stock, rows)
    ensures o.Created? <==> CreateMessages(stock, rows) == [] && CoversEach(stock, rows)
    ensures o.Created? ==> o.atencion == id
  {
    var msgs := CreateMessages(stock, rows);
    if msgs != [] then Rejected(msgs)
    else if !CoversEach(stock, rows) then RolledBack
    else Created(id)
  }

  /**
   * When every row names the same medication the handler as written is
   * right: it commits and rolls back exactly when the intended one does,
   * leaving the same stock.
   */
  lemma OneMedicationCreateAsIntended(stock: seq<nat>, rows: seq<CreateRow>, id: nat)
    requires MedsKnown(|stock|, rows) && rows != []
    requires forall i :: 0 <= i < |rows| ==> rows[i].medicamento == rows[0].medicamento
    ensures CreateResult(stock, rows, id) == IntendedCreateResult(stock, rows, id)
    ensures CreateCommits(stock, rows) ==> CoversEach(stock, rows) && CreateStock(stock, rows) == ChargeEach(stock, rows)
  {
    var m := ChargedMedication(rows);
    assert m == rows[0].medicamento;
    UnitsOfOneMedication(rows, m, m);
    forall other | other != m
      ensures Units(rows, other) == 0
    {
      UnitsOfOneMedication(rows, m, other);
    }
    assert CoversEach(stock, rows) <==> Requested(rows) <= stock[m];
    if CreateCommits(stock, rows) {
      assert CreateStock(stock, rows) == ChargeEach(stock, rows);
    }
  }

  /**
   * The create handler as written charges the last row's medication with the
   * whole request: two rows on two medications leave the first one untouched,
   * where charging each row's own medication gives [6, 7].
   */
  lemma CreateChargesLastMedicationOnly(stock: seq<nat>, rows: seq<CreateRow>)
    requires stock == [10, 10] && rows == [CreateRow(0, 4), CreateRow(1, 3)]
    ensures MedsKnown(|stock|, rows) && CreateResult(stock, rows, 0) == Created(0)
    ensures CreateStock(stock, rows) == [10, 3]
    ensures CoversEach(stock, rows) && ChargeEach(stock, rows) == [6, 7]
  {
    var first := rows[..1];
    assert first == [CreateRow(0, 4)] && first[..0] == [];
    assert CreateErrors(stock, rows) == [None, None];
    assert first[..|first| - 1] == [];
    assert Requested(first) == 4;
    assert Units(first, 0) == 4;
    assert Units(first, 1) == 0;
    assert rows[..|rows| - 1] == first;
    assert Requested(rows) == 7;
    assert Units(rows, 0) == 4;
    assert Units(rows, 1) == 3;
    assert ChargeEach(stock, first) == [6, 10];
  }

  /**
   * The whole request is held against the last row's medication alone: a
   * submission every row of which passes, and which the stock could serve
   * row by row, is rolled back.
   */
  lemma CreateRollsBackServableRequest(stock: seq<nat>, rows: seq<CreateRow>)
    requires stock == [10, 2] && rows == [CreateRow(0, 1), CreateRow(1, 2)]
    ensures MedsKnown(|stock|, rows) && CreateMessages(stock, rows) == []
    ensures CreateResult(stock, rows, 0) == RolledBack
    ensures CoversEach(stock, rows) && ChargeEach(stock, rows) == [9, 0]
  {
    var first := rows[..1];
    assert first == [CreateRow(0, 1)] && first[..0] == [];
    assert CreateErrors(stock, rows) == [None, None];
    assert first[..|first| - 1] == [];
    assert Requested(first) == 1;
    assert Units(first, 0) == 1;
    assert Units(first, 1) == 0;
    assert rows[..|rows| - 1] == first;
    assert Requested(rows) == 3;
    assert Units(rows, 0) == 1;
    assert Units(rows, 1) == 2;
    assert ChargeEach(stock, first) == [9, 2];
  }

  // ---------------------------------------------------------------------------
  // Update (AtencionUpdateView.form_valid)
  // ---------------------------------------------------------------------------

  /** The stored medication stock, detail lines and next free detail key. */
  datatype Tables = Tables(stock: seq<nat>, details: map<nat, DetalleAtencion>, nextPk: nat)

  predicate UpdateRowsFit(n: nat, details: map<nat, DetalleAtencion>, rows: seq<UpdateRow>)
  {
    forall i :: 0 <= i < |rows| ==>
      rows[i].medicamento < n && (rows[i].pk.Some? ==> rows[i].pk.value in details)
  }

  /** Each saved line is edited by at most one row of the formset. */
  predicate DistinctPks(rows: seq<UpdateRow>)
  {
    forall i, j :: 0 <= i < j < |rows| && rows[i].pk.Some? ==> rows[i].pk != rows[j].pk
  }

  predicate DeletionsFit(n: nat, deleted: seq<DeletedRow>)
  {
    forall j :: 0 <= j < |deleted| ==> deleted[j].medicamento < n
  }

  /** The quantity the row had when it was saved last; 0 for a new row. */
  function Original(details: map<nat, DetalleAtencion>, r: UpdateRow): nat
    requires r.pk.Some? ==> r.pk.value in details
  {
    if r.pk.Some? then details[r.pk.value].cantidad else 0
  }

  /** The extra units the row draws; negative when the quantity went down. */
  function Delta(details: map<nat, DetalleAtencion>, r: UpdateRow): int
    requires r.pk.Some? ==> r.pk.value in details
  {
    r.cantidad - Original(details, r)
  }

  /** An update row passes: the stock covers its extra units and its quantity is positive. */
  predicate UpdateRowOk(snap: seq<nat>, details: map<nat, DetalleAtencion>, r: UpdateRow)
    requires r.medicamento < |snap| && (r.pk.Some? ==> r.pk.value in details)
  {
    Delta(details, r) <= snap[r.medicamento] && r.cantidad > 0
  }

  /** The message for one update row; the stock test comes first. */
  function UpdateRowError(snap: seq<nat>, details: map<nat, DetalleAtencion>, r: UpdateRow): (e: Option<Message>)
    requires r.medicamento < |snap| && (r.pk.Some? ==> r.pk.value in details)
    ensures e.None? <==> UpdateRowOk(snap, details, r)
    ensures r.cantidad == 0 ==> e == Some(NonPositiveQuantity)
    ensures e == Some(InsufficientStock(r.medicamento)) <==> Delta(details, r) > snap[r.medicamento]
  {
    if Delta(details, r) > snap[r.medicamento] then Some(InsufficientStock(r.medicamento))
    else if r.cantidad <= 0 then Some(NonPositiveQuantity)
    else None
  }

  function UpdateErrors(snap: seq<nat>, details: map<nat, DetalleAtencion>, rows: seq<UpdateRow>): (errs: seq<Option<Message>>)
    requires UpdateRowsFit(|snap|, details, rows)
    ensures |errs| == |rows|
  {
    seq(|rows|, i requires 0 <= i < |rows| => UpdateRowError(snap, details, rows[i]))
  }

  ghost function RejectedUpdateRows(snap: seq<nat>, details: map<nat, DetalleAtencion>, rows: seq<UpdateRow>): set<nat>
    requires UpdateRowsFit(|snap|, details, rows)
  {
    set i: nat | i < |rows| && !UpdateRowOk(snap, details, rows[i])
  }

  /** The update loop's messages: one per rejected row, none when every row passes. */
  function UpdateMessages(snap: seq<nat>, details: map<nat, DetalleAtencion>, rows: seq<UpdateRow>): (msgs: seq<Message>)
    requires UpdateRowsFit(|snap|, details, rows)
    ensures msgs == [] <==> forall i :: 0 <= i < |rows| ==> UpdateRowOk(snap, details, rows[i])
    ensures |msgs| == |RejectedUpdateRows(snap, details, rows)|
  {
    var errs := UpdateErrors(snap, details, rows);
    assert forall i :: 0 <= i < |rows| ==> errs[i] == UpdateRowError(snap, details, rows[i]);
    assert Offending(errs) == RejectedUpdateRows(snap, details, rows);
    Collected(errs)
  }

  /**
   * The messages name the rejected rows: a row asking more than its medication
   * holds puts that medication's stock message in the list, and a row of zero
   * units the non-positive message.
   */
  lemma UpdateMessagesNameRows(snap: seq<nat>, details: map<nat, DetalleAtencion>, rows: seq<UpdateRow>)
    requires UpdateRowsFit(|snap|, details, rows)
    ensures forall i :: 0 <= i < |rows| && Delta(details, rows[i]) > snap[rows[i].medicamento] ==>
              InsufficientStock(rows[i].medicamento) in UpdateMessages(snap, details, rows)
    ensures forall i :: 0 <= i < |rows| && rows[i].cantidad == 0 ==>
              NonPositiveQuantity in UpdateMessages(snap, details, rows)
  {
    var errs := UpdateErrors(snap, details, rows);
    var msgs := UpdateMessages(snap, details, rows);
    assert msgs == Collected(errs);
    CollectedHasEvery(errs);
    forall i | 0 <= i < |rows| && !UpdateRowOk(snap, details, rows[i])
      ensures UpdateRowError(snap, details, rows[i]).value in msgs
    {
      assert errs[i] == UpdateRowError(snap, details, rows[i]);
    }
  }

  lemma UpdateErrorsPrefix(snap: seq<nat>, details: map<nat, DetalleAtencion>, rows: seq<UpdateRow>, i: nat)
    requires UpdateRowsFit(|snap|, details, rows) && i <= |rows|
    ensures UpdateErrors(snap, details, rows[..i]) == UpdateErrors(snap, details, rows)[..i]
  {
  }

  /** Each rejected row's message follows the messages of the rows before it. */
  lemma UpdateMessagesInRowOrder(snap: seq<nat>, details: map<nat, DetalleAtencion>, rows: seq<UpdateRow>)
    requires UpdateRowsFit(|snap|, details, rows)
    ensures forall i :: 0 <= i < |rows| && !UpdateRowOk(snap, details, rows[i]) ==>
              UpdateMessages(snap, details, rows[..i]) + [UpdateRowError(snap, details, rows[i]).value] <= UpdateMessages(snap, details, rows)
  {
    var errs := UpdateErrors(snap, details, rows);
    var msgs := UpdateMessages(snap, details, rows);
    assert msgs == Collected(errs);
    CollectedInRowOrder(errs);
    forall i | 0 <= i < |rows| && !UpdateRowOk(snap, details, rows[i])
      ensures UpdateMessages(snap, details, rows[..i]) + [UpdateRowError(snap, details, rows[i]).value] <= msgs
    {
      UpdateErrorsPrefix(snap, details, rows, i);
      assert errs[i] == UpdateRowError(snap, details, rows[i]);
    }
  }

  /** Every message is a rejected row's. */
  lemma UpdateMessagesFromRows(snap: seq<nat>, details: map<nat, DetalleAtencion>, rows: seq<UpdateRow>)
    requires UpdateRowsFit(|snap|, details, rows)
    ensures forall k :: 0 <= k < |UpdateMessages(snap, details, rows)| ==>
              exists i :: 0 <= i < |rows| && !UpdateRowOk(snap, details, rows[i])
                && UpdateRowError(snap, details, rows[i]) == Some(UpdateMessages(snap, details, rows)[k])
  {
    var errs := UpdateErrors(snap, details, rows);
    var msgs := UpdateMessages(snap, details, rows);
    assert msgs == Collected(errs);
    CollectedFromRows(errs);
    forall k | 0 <= k < |msgs|
      ensures exists i :: 0 <= i < |rows| && !UpdateRowOk(snap, details, rows[i]) && UpdateRowError(snap, details, rows[i]) == Some(msgs[k])
    {
      var i :| 0 <= i < |errs| && errs[i] == Some(msgs[k]);
      assert errs[i] == UpdateRowError(snap, details, rows[i]);
    }
  }

  lemma UpdateMessagesStep(snap: seq<nat>, details: map<nat, DetalleAtencion>, rows: seq<UpdateRow>, i: nat)
    requires UpdateRowsFit(|snap|, details, rows) && i < |rows|
    ensures var e := UpdateRowError(snap, details, rows[i]);
            e.Some? ==> UpdateMessages(snap, details, rows[..i + 1]) == UpdateMessages(snap, details, rows[..i]) + [e.value]
    ensures UpdateRowError(snap, details, rows[i]).None? ==>
              UpdateMessages(snap, details, rows[..i + 1]) == UpdateMessages(snap, details, rows[..i])
  {
    assert UpdateErrors(snap, details, rows[..i + 1]) ==
           UpdateErrors(snap, details, rows[..i]) + [UpdateRowError(snap, details, rows[i])];
    CollectedStep(UpdateErrors(snap, details, rows[..i]), UpdateRowError(snap, details, rows[i]));
    assert UpdateMessages(snap, details, rows[..i]) + [] == UpdateMessages(snap, details, rows[..i]);
  }

  /** Audit 'M' is recorded exactly when no row was rejected. */
  function UpdateResult(snap: seq<nat>, details: map<nat, DetalleAtencion>, rows: seq<UpdateRow>): (o: UpdateOutcome)
    requires UpdateRowsFit(|snap|, details, rows)
    ensures o.Updated? <==> forall i :: 0 <= i < |rows| ==> UpdateRowOk(snap, details, rows[i])
    ensures o.PartiallyRejected? ==> o.messages == UpdateMessages(snap, details, rows)
    ensures o.PartiallyRejected? ==> |o.messages| == |RejectedUpdateRows(snap, details, rows)|
  {
    var msgs := UpdateMessages(snap, details, rows);
    if msgs == [] then Updated else PartiallyRejected(msgs)
  }

  /**
   * One update row applied to the tables: a rejected row changes nothing; an
   * accepted row writes its medication's stock as snapshot minus its extra
   * units, and saves its line (over its old line, or under the next key).
   */
  function ApplyRow(snap: seq<nat>, atencion: nat, d0: map<nat, DetalleAtencion>, t: Tables, r: UpdateRow): (t': Tables)
    requires r.medicamento < |snap| == |t.stock| && (r.pk.Some? ==> r.pk.value in d0)
    ensures |t'.stock| == |snap|
    ensures !UpdateRowOk(snap, d0, r) ==> t' == t
    ensures UpdateRowOk(snap, d0, r) ==>
              && t'.stock[r.medicamento] == snap[r.medicamento] - Delta(d0, r)
              && (forall m :: 0 <= m < |snap| && m != r.medicamento ==> t'.stock[m] == t.stock[m])
  {
    if !UpdateRowOk(snap, d0, r) then t
    else
      var stock := t.stock[r.medicamento := snap[r.medicamento] - Delta(d0, r)];
      var line := DetalleAtencion(atencion, r.medicamento, r.cantidad);
      if r.pk.Some? then Tables(stock, t.details[r.pk.value := line], t.nextPk)
      else Tables(stock, t.details[t.nextPk := line], t.nextPk + 1)
  }

  /** The row loop over the whole formset, originals read from the lines stored before it. */
  function ApplyRows(snap: seq<nat>, atencion: nat, t0: Tables, rows: seq<UpdateRow>): (t': Tables)
    requires |t0.stock| == |snap| && UpdateRowsFit(|snap|, t0.details, rows)
    ensures |t'.stock| == |snap|
    ensures t'.nextPk >= t0.nextPk
    ensures forall k :: k in t0.details ==> k in t'.details
    ensures (forall k :: k in t0.details ==> k < t0.nextPk) ==>
              forall k :: k in t'.details ==> k < t'.nextPk
  {
    if rows == [] then t0
    else
      var init := rows[..|rows| - 1];
      assert forall i :: 0 <= i < |init| ==> init[i] == rows[i];
      ApplyRow(snap, atencion, t0.details, ApplyRows(snap, atencion, t0, init), rows[|rows| - 1])
  }

  lemma ApplyRowsStep(snap: seq<nat>, atencion: nat, t0: Tables, rows: seq<UpdateRow>, i: nat)
    requires |t0.stock| == |snap| && UpdateRowsFit(|snap|, t0.details, rows) && i < |rows|
    ensures ApplyRows(snap, atencion, t0, rows[..i + 1]) ==
              ApplyRow(snap, atencion, t0.details, ApplyRows(snap, atencion, t0, rows[..i]), rows[i])
  {
    assert rows[..i + 1][..i] == rows[..i];
  }

  /** The last accepted row of medication `m` is the one at `i`. */
  predicate LastAcceptedOn(snap: seq<nat>, d0: map<nat, DetalleAtencion>, rows: seq<UpdateRow>, m: nat, i: nat)
    requires UpdateRowsFit(|snap|, d0, rows)
  {
    && i < |rows| && rows[i].medicamento == m && UpdateRowOk(snap, d0, rows[i])
    && forall j :: i < j < |rows| && rows[j].medicamento == m ==> !UpdateRowOk(snap, d0, rows[j])
  }

  /** A medication no accepted row names keeps its stock through the row loop: rejected rows change nothing. */
  lemma {:induction false} ApplyRowsStockUntouched(snap: seq<nat>, atencion: nat, t0: Tables, rows: seq<UpdateRow>, m: nat)
    requires |t0.stock| == |snap| && UpdateRowsFit(|snap|, t0.details, rows) && m < |snap|
    requires forall i :: 0 <= i < |rows| && rows[i].medicamento == m ==> !UpdateRowOk(snap, t0.details, rows[i])
    ensures ApplyRows(snap, atencion, t0, rows).stock[m] == t0.stock[m]
  {
    if rows != [] {
      var n := |rows| - 1;
      var init := rows[..n];
      assert forall i :: 0 <= i < n ==> init[i] == rows[i];
      ApplyRowsStockUntouched(snap, atencion, t0, init, m);
      var t1 := ApplyRows(snap, atencion, t0, init);
      assert ApplyRows(snap, atencion, t0, rows) == ApplyRow(snap, atencion, t0.details, t1, rows[n]);
    }
  }

  /**
   * After the row loop, the last accepted row of a medication decides its
   * stock: the snapshot minus that row's extra units, whatever earlier rows wrote.
   */
  lemma {:induction false} ApplyRowsStockLastWrite(snap: seq<nat>, atencion: nat, t0: Tables, rows: seq<UpdateRow>, m: nat, i: nat)
    requires |t0.stock| == |snap| && UpdateRowsFit(|snap|, t0.details, rows) && m < |snap|
    requires LastAcceptedOn(snap, t0.details, rows, m, i)
    ensures ApplyRows(snap, atencion, t0, rows).stock[m] == snap[m] - Delta(t0.details, rows[i])
  {
    var n := |rows| - 1;
    var init := rows[..n];
    assert forall j :: 0 <= j < n ==> init[j] == rows[j];
    var t1 := ApplyRows(snap, atencion, t0, init);
    assert ApplyRows(snap, atencion, t0, rows) == ApplyRow(snap, atencion, t0.details, t1, rows[n]);
    if i < n {
      assert LastAcceptedOn(snap, t0.details, init, m, i);
      ApplyRowsStockLastWrite(snap, atencion, t0, init, m, i);
    }
  }

  /**
   * The saved lines after the row loop: a stored line no accepted row edits is
   * kept as it was (in particular the line of a rejected row), and the line
   * of an accepted row holds the row's medication and quantity.
   */
  lemma {:induction false} ApplyRowsDetails(snap: seq<nat>, atencion: nat, t0: Tables, rows: seq<UpdateRow>)
    requires |t0.stock| == |snap| && UpdateRowsFit(|snap|, t0.details, rows) && DistinctPks(rows)
    requires forall k :: k in t0.details ==> k < t0.nextPk
    ensures forall k :: k in t0.details
              && (forall i :: 0 <= i < |rows| && rows[i].pk == Some(k) ==> !UpdateRowOk(snap, t0.details, rows[i]))
              ==> ApplyRows(snap, atencion, t0, rows).details[k] == t0.details[k]
    ensures forall i :: 0 <= i < |rows| && rows[i].pk.Some? && UpdateRowOk(snap, t0.details, rows[i])
              ==> ApplyRows(snap, atencion, t0, rows).details[rows[i].pk.value]
                    == DetalleAtencion(atencion, rows[i].medicamento, rows[i].cantidad)
  {
    if rows != [] {
      var n := |rows| - 1;
      var init := rows[..n];
      assert forall i :: 0 <= i < n ==> init[i] == rows[i];
      ApplyRowsDetails(snap, atencion, t0, init);
      var t1 := ApplyRows(snap, atencion, t0, init);
      forall k | k in t0.details
        && (forall i :: 0 <= i < |rows| && rows[i].pk == Some(k) ==> !UpdateRowOk(snap, t0.details, rows[i]))
        ensures ApplyRows(snap, atencion, t0, rows).details[k] == t0.details[k]
      {
        assert t1.details[k] == t0.details[k];
      }
      forall i | 0 <= i < |rows| && rows[i].pk.Some? && UpdateRowOk(snap, t0.details, rows[i])
        ensures ApplyRows(snap, atencion, t0, rows).details[rows[i].pk.value]
                  == DetalleAtencion(atencion, rows[i].medicamento, rows[i].cantidad)
      {
        if i < n {
          assert rows[i].pk != rows[n].pk;
          assert t1.details[rows[i].pk.value] == DetalleAtencion(atencion, rows[i].medicamento, rows[i].cantidad);
        }
      }
    }
  }

  /** A row writes one line at most: its own key, or the next free key when it is new. */
  lemma ApplyRowKeepsOtherLine(snap: seq<nat>, atencion: nat, d0: map<nat, DetalleAtencion>, t: Tables, r: UpdateRow, k: nat)
    requires r.medicamento < |snap| == |t.stock| && (r.pk.Some? ==> r.pk.value in d0)
    requires k in t.details && r.pk != Some(k) && (r.pk.None? ==> k != t.nextPk)
    ensures k in ApplyRow(snap, atencion, d0, t, r).details
    ensures ApplyRow(snap, atencion, d0, t, r).details[k] == t.details[k]
  {
  }

  /** The rows new on update that pass their checks: each takes the next free key. */
  function NewAccepted(snap: seq<nat>, d0: map<nat, DetalleAtencion>, rows: seq<UpdateRow>): (n: nat)
    requires UpdateRowsFit(|snap|, d0, rows)
    ensures n <= |rows|
  {
    if rows == [] then 0
    else
      var init := rows[..|rows| - 1];
      var last := rows[|rows| - 1];
      assert forall i :: 0 <= i < |init| ==> init[i] == rows[i];
      NewAccepted(snap, d0, init) + (if last.pk.None? && UpdateRowOk(snap, d0, last) then 1 else 0)
  }

  /**
   * The keys after the row loop: the stored ones, and one fresh key per
   * accepted new row, so a rejected new row stores nothing.
   */
  lemma {:induction false} ApplyRowsKeys(snap: seq<nat>, atencion: nat, t0: Tables, rows: seq<UpdateRow>)
    requires |t0.stock| == |snap| && UpdateRowsFit(|snap|, t0.details, rows)
    requires forall k :: k in t0.details ==> k < t0.nextPk
    ensures ApplyRows(snap, atencion, t0, rows).nextPk == t0.nextPk + NewAccepted(snap, t0.details, rows)
    ensures forall k :: k in ApplyRows(snap, atencion, t0, rows).details <==>
              k in t0.details || t0.nextPk <= k < t0.nextPk + NewAccepted(snap, t0.details, rows)
  {
    if rows != [] {
      var n := |rows| - 1;
      var init := rows[..n];
      assert forall i :: 0 <= i < n ==> init[i] == rows[i];
      ApplyRowsKeys(snap, atencion, t0, init);
    }
  }

  /**
   * An accepted new row's line, with the row's medication and quantity, is
   * stored under the first key no earlier accepted new row took, which is
   * above every key stored before the update.
   */
  lemma {:induction false} ApplyRowsNewLine(snap: seq<nat>, atencion: nat, t0: Tables, rows: seq<UpdateRow>, i: nat)
    requires |t0.stock| == |snap| && UpdateRowsFit(|snap|, t0.details, rows)
    requires forall k :: k in t0.details ==> k < t0.nextPk
    requires i < |rows| && rows[i].pk.None? && UpdateRowOk(snap, t0.details, rows[i])
    ensures var k := t0.nextPk + NewAccepted(snap, t0.details, rows[..i]);
            k in ApplyRows(snap, atencion, t0, rows).details
            && ApplyRows(snap, atencion, t0, rows).details[k]
                 == DetalleAtencion(atencion, rows[i].medicamento, rows[i].cantidad)
  {
    var n := |rows| - 1;
    if i < n {
      var init := rows[..n];
      assert forall j :: 0 <= j < n ==> init[j] == rows[j];
      var t1 := ApplyRows(snap, atencion, t0, init);
      assert ApplyRows(snap, atencion, t0, rows) == ApplyRow(snap, atencion, t0.details, t1, rows[n]);
      ApplyRowsNewLine(snap, atencion, t0, init, i);
      assert init[..i] == rows[..i];
      var k := t0.nextPk + NewAccepted(snap, t0.details, rows[..i]);
      assert rows[n].pk.Some? ==> rows[n].pk.value < t0.nextPk;
      ApplyRowKeepsOtherLine(snap, atencion, t0.details, t1, rows[n], k);
      assert ApplyRows(snap, atencion, t0, rows).details[k] == t1.details[k];
    } else {
      ApplyRowsLastNewLine(snap, atencion, t0, rows);
    }
  }

  /** The case of the last row. */
  lemma ApplyRowsLastNewLine(snap: seq<nat>, atencion: nat, t0: Tables, rows: seq<UpdateRow>)
    requires |t0.stock| == |snap| && UpdateRowsFit(|snap|, t0.details, rows)
    requires forall k :: k in t0.details ==> k < t0.nextPk
    requires rows != [] && rows[|rows| - 1].pk.None? && UpdateRowOk(snap, t0.details, rows[|rows| - 1])
    ensures var k := t0.nextPk + NewAccepted(snap, t0.details, rows[..|rows| - 1]);
            k in ApplyRows(snap, atencion, t0, rows).details
            && ApplyRows(snap, atencion, t0, rows).details[k]
                 == DetalleAtencion(atencion, rows[|rows| - 1].medicamento, rows[|rows| - 1].cantidad)
  {
    var n := |rows| - 1;
    var init := rows[..n];
    assert forall j :: 0 <= j < n ==> init[j] == rows[j];
    ApplyRowsKeys(snap, atencion, t0, init);
    var t1 := ApplyRows(snap, atencion, t0, init);
    assert ApplyRows(snap, atencion, t0, rows) == ApplyRow(snap, atencion, t0.details, t1, rows[n]);
  }

  /** Partway through the row loop, the stored line of a row still to come is as it was before the loop. */
  lemma PendingLineUnchanged(snap: seq<nat>, atencion: nat, t0: Tables, rows: seq<UpdateRow>, i: nat, j: nat)
    requires |t0.stock| == |snap| && UpdateRowsFit(|snap|, t0.details, rows) && DistinctPks(rows)
    requires forall k :: k in t0.details ==> k < t0.nextPk
    requires i <= j < |rows| && rows[j].pk.Some?
    ensures var t := ApplyRows(snap, atencion, t0, rows[..i]);
            rows[j].pk.value in t.details && t.details[rows[j].pk.value] == t0.details[rows[j].pk.value]
  {
    var done := rows[..i];
    assert forall a :: 0 <= a < |done| ==> done[a] == rows[a];
    ApplyRowsDetails(snap, atencion, t0, done);
  }

  /** The deletion loop: each deleted line gives its quantity back and is removed. */
  function ApplyDeletions(snap: seq<nat>, t: Tables, deleted: seq<DeletedRow>): (t': Tables)
    requires |t.stock| == |snap| && DeletionsFit(|snap|, deleted)
    ensures |t'.stock| == |snap| && t'.nextPk == t.nextPk
    ensures forall j :: 0 <= j < |deleted| ==> deleted[j].pk !in t'.details
    ensures forall k :: k in t'.details ==> k in t.details && t'.details[k] == t.details[k]
    ensures forall k :: k in t.details && (forall j :: 0 <= j < |deleted| ==> deleted[j].pk != k)
              ==> k in t'.details
  {
    if deleted == [] then t
    else
      var init := deleted[..|deleted| - 1];
      var d := deleted[|deleted| - 1];
      assert forall j :: 0 <= j < |init| ==> init[j] == deleted[j];
      var t1 := ApplyDeletions(snap, t, init);
      Tables(t1.stock[d.medicamento := snap[d.medicamento] + d.cantidad], t1.details - {d.pk}, t1.nextPk)
  }

  lemma ApplyDeletionsStep(snap: seq<nat>, t: Tables, deleted: seq<DeletedRow>, j: nat)
    requires |t.stock| == |snap| && DeletionsFit(|snap|, deleted) && j < |deleted|
    ensures var t1 := ApplyDeletions(snap, t, deleted[..j]);
            var d := deleted[j];
            ApplyDeletions(snap, t, deleted[..j + 1]) ==
              Tables(t1.stock[d.medicamento := snap[d.medicamento] + d.cantidad], t1.details - {d.pk}, t1.nextPk)
  {
    assert deleted[..j + 1][..j] == deleted[..j];
  }

  /** A medication no deleted line names keeps the value the row loop left. */
  lemma {:induction false} ApplyDeletionsStockUntouched(snap: seq<nat>, t: Tables, deleted: seq<DeletedRow>, m: nat)
    requires |t.stock| == |snap| && DeletionsFit(|snap|, deleted) && m < |snap|
    requires forall j :: 0 <= j < |deleted| ==> deleted[j].medicamento != m
    ensures ApplyDeletions(snap, t, deleted).stock[m] == t.stock[m]
  {
    if deleted != [] {
      var n := |deleted| - 1;
      var init := deleted[..n];
      assert forall j :: 0 <= j < n ==> init[j] == deleted[j];
      ApplyDeletionsStockUntouched(snap, t, init, m);
    }
  }

  /**
   * After the deletion loop, the last deleted line of a medication decides its
   * stock: the snapshot plus that line's quantity, whatever was written before.
   */
  lemma {:induction false} ApplyDeletionsStockLastWrite(snap: seq<nat>, t: Tables, deleted: seq<DeletedRow>, m: nat, j: nat)
    requires |t.stock| == |snap| && DeletionsFit(|snap|, deleted) && m < |snap|
    requires j < |deleted| && deleted[j].medicamento == m
    requires forall k :: j < k < |deleted| ==> deleted[k].medicamento != m
    ensures ApplyDeletions(snap, t, deleted).stock[m] == snap[m] + deleted[j].cantidad
  {
    var n := |deleted| - 1;
    var init := deleted[..n];
    assert forall k :: 0 <= k < n ==> init[k] == deleted[k];
    if j < n {
      ApplyDeletionsStockLastWrite(snap, t, init, m, j);
    }
  }

  /** The whole update: the row loop, then the deletion loop; both are committed. */
  function UpdateTables(snap: seq<nat>, atencion: nat, t0: Tables, rows: seq<UpdateRow>, deleted: seq<DeletedRow>): (t': Tables)
    requires |t0.stock| == |snap| && UpdateRowsFit(|snap|, t0.details, rows) && DeletionsFit(|snap|, deleted)
    ensures |t'.stock| == |snap|
  {
    ApplyDeletions(snap, ApplyRows(snap, atencion, t0, rows), deleted)
  }

  /** No accepted row and no deleted line names medication `m`. */
  predicate UntouchedBy(snap: seq<nat>, d0: map<nat, DetalleAtencion>, rows: seq<UpdateRow>, deleted: seq<DeletedRow>, m: nat)
    requires UpdateRowsFit(|snap|, d0, rows)
  {
    && (forall i :: 0 <= i < |rows| && rows[i].medicamento == m ==> !UpdateRowOk(snap, d0, rows[i]))
    && (forall j :: 0 <= j < |deleted| ==> deleted[j].medicamento != m)
  }

  /** The accepted row at `i` is the only row naming `m`, and no deleted line names it. */
  predicate LoneAcceptedOn(snap: seq<nat>, d0: map<nat, DetalleAtencion>, rows: seq<UpdateRow>, deleted: seq<DeletedRow>, m: nat, i: nat)
    requires UpdateRowsFit(|snap|, d0, rows)
  {
    && i < |rows| && rows[i].medicamento == m && UpdateRowOk(snap, d0, rows[i])
    && (forall j :: 0 <= j < |rows| && j != i ==> rows[j].medicamento != m)
    && (forall j :: 0 <= j < |deleted| ==> deleted[j].medicamento != m)
  }

  /** The deleted line at `j` is the only deleted line naming `m`. */
  predicate LoneDeletedOn(deleted: seq<DeletedRow>, m: nat, j: nat)
  {
    && j < |deleted| && deleted[j].medicamento == m
    && (forall k :: 0 <= k < |deleted| && k != j ==> deleted[k].medicamento != m)
  }

  /**
   * A submission whose medications appear once each behaves as a stock ledger:
   * a medication no accepted row and no deleted line names keeps its stock,
   * the medication of a lone accepted row ends at its stock minus the row's
   * extra units, and that of a lone deleted line at its stock plus the line's
   * quantity.
   */
  lemma UpdateStockSingleWriter(snap: seq<nat>, atencion: nat, t0: Tables, rows: seq<UpdateRow>, deleted: seq<DeletedRow>, m: nat)
    requires t0.stock == snap && UpdateRowsFit(|snap|, t0.details, rows) && DeletionsFit(|snap|, deleted)
    requires m < |snap|
    ensures UntouchedBy(snap, t0.details, rows, deleted, m) ==>
              UpdateTables(snap, atencion, t0, rows, deleted).stock[m] == snap[m]
    ensures forall i: nat :: LoneAcceptedOn(snap, t0.details, rows, deleted, m, i) ==>
              UpdateTables(snap, atencion, t0, rows, deleted).stock[m] == snap[m] - Delta(t0.details, rows[i])
    ensures forall j: nat :: LoneDeletedOn(deleted, m, j) ==>
              UpdateTables(snap, atencion, t0, rows, deleted).stock[m] == snap[m] + deleted[j].cantidad
  {
    var t1 := ApplyRows(snap, atencion, t0, rows);
    if forall j :: 0 <= j < |deleted| ==> deleted[j].medicamento != m {
      ApplyDeletionsStockUntouched(snap, t1, deleted, m);
      if forall i :: 0 <= i < |rows| && rows[i].medicamento == m ==> !UpdateRowOk(snap, t0.details, rows[i]) {
        ApplyRowsStockUntouched(snap, atencion, t0, rows, m);
      }
      forall i: nat | LoneAcceptedOn(snap, t0.details, rows, deleted, m, i)
        ensures t1.stock[m] == snap[m] - Delta(t0.details, rows[i])
      {
        ApplyRowsStockLastWrite(snap, atencion, t0, rows, m, i);
      }
    }
    forall j: nat | LoneDeletedOn(deleted, m, j)
      ensures UpdateTables(snap, atencion, t0, rows, deleted).stock[m] == snap[m] + deleted[j].cantidad
    {
      ApplyDeletionsStockLastWrite(snap, t1, deleted, m, j);
    }
  }

  /**
   * Two rows of the same medication do not add up: each writes the stock it
   * read before the submission. Two new rows of 2 and 3 units against a stock
   * of 10 leave 7, and a deleted line writes over an accepted row's charge.
   */
  lemma UpdateSameMedicationLastWriteWins(t0: Tables)
    requires t0.stock == [10] && t0.details == map[4 := DetalleAtencion(1, 0, 4)] && t0.nextPk == 5
    ensures var rows := [UpdateRow(None, 0, 2), UpdateRow(None, 0, 3)];
            UpdateRowsFit(1, t0.details, rows) && DeletionsFit(1, [])
            && UpdateTables([10], 1, t0, rows, []).stock == [7]
            && UpdateResult([10], t0.details, rows) == Updated
    ensures var rows := [UpdateRow(None, 0, 2)];
            var deleted := [DeletedRow(4, 0, 4)];
            UpdateRowsFit(1, t0.details, rows) && DeletionsFit(1, deleted)
            && UpdateTables([10], 1, t0, rows, deleted).stock == [14]
  {
    var rows := [UpdateRow(None, 0, 2), UpdateRow(None, 0, 3)];
    assert rows[..1] == [UpdateRow(None, 0, 2)] && rows[..1][..0] == [];
    assert UpdateErrors([10], t0.details, rows) == [None, None];
    var one := [UpdateRow(None, 0, 2)];
    assert one[..0] == [];
    var deleted := [DeletedRow(4, 0, 4)];
    assert deleted[..0] == [];
  }

  /**
   * Update commits what it could: one row accepted and one refused leave the
   * accepted row's charge and line stored.
   */
  lemma UpdateCommitsAcceptedRowsDespiteErrors(t0: Tables)
    requires t0.stock == [10, 10] && t0.details == map[] && t0.nextPk == 1
    ensures var rows := [UpdateRow(None, 0, 2), UpdateRow(None, 1, 50)];
            UpdateRowsFit(2, t0.details, rows) && DeletionsFit(2, [])
            && UpdateTables([10, 10], 3, t0, rows, []) == Tables([8, 10], map[1 := DetalleAtencion(3, 0, 2)], 2)
  {
    var rows := [UpdateRow(None, 0, 2), UpdateRow(None, 1, 50)];
    var first := rows[..1];
    assert first == [UpdateRow(None, 0, 2)] && first[..0] == [];
    assert ApplyRows([10, 10], 3, t0, first[..0]) == t0;
    assert UpdateRowOk([10, 10], t0.details, first[0]);
    assert [10, 10][0 := 8] == [8, 10];
    var t1 := ApplyRows([10, 10], 3, t0, first);
    assert t1 == Tables([8, 10], map[1 := DetalleAtencion(3, 0, 2)], 2);
    assert !UpdateRowOk([10, 10], t0.details, rows[1]);
    assert ApplyRows([10, 10], 3, t0, rows) == t1;
  }

  /** The same submission reports the refused row's message, so no 'M' is recorded. */
  lemma UpdateReportsRefusedRow(details: map<nat, DetalleAtencion>)
    requires details == map[]
    ensures var rows := [UpdateRow(None, 0, 2), UpdateRow(None, 1, 50)];
            UpdateRowsFit(2, details, rows)
            && UpdateResult([10, 10], details, rows) == PartiallyRejected([InsufficientStock(1)])
  {
    var rows := [UpdateRow(None, 0, 2), UpdateRow(None, 1, 50)];
    var errs := UpdateErrors([10, 10], details, rows);
    assert errs == [None, Some(InsufficientStock(1))];
    assert errs[..1] == [None] && errs[..1][..0] == [];
    assert Collected(errs[..1]) == [];
    assert Collected(errs) == [InsufficientStock(1)];
  }
}
