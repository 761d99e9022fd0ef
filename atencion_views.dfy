/**
 * The two handlers of the encounter views that adjust medication stock:
 * AtencionCreateView.form_valid and AtencionUpdateView.form_valid. The
 * stored tables are the fields of a Clinic; each handler runs its loops over
 * them in place and is proved equal to the functions of StockRules.
 */
module AtencionViews {
  import opened Wrappers
  import opened AttentionModels
  import opened StockRules

  class Clinic {
    /** Medicamento.cantidad, indexed by medication id. */
    var stock: array<nat>
    /** Stored encounter headers by id, and the next id to hand out. */
    var atenciones: map<nat, Atencion>
    var nextAtencion: nat
    /** Stored detail lines by pk, and the next pk to hand out. */
    var details: map<nat, DetalleAtencion>
    var nextPk: nat
    /** The audit trail, oldest first. */
    var audit: seq<AuditEvent>

    /**
     * Keys start at 1, as the database's automatic keys do, so a saved line's
     * key is never the falsy 0 that `if instance.pk:` would take for "new".
     * Keys are below the next key, and every detail line points at a stored
     * encounter and medication.
     */
    ghost predicate Valid()
      reads this`stock, this`atenciones, this`nextAtencion, this`details, this`nextPk
    {
      && 1 <= nextAtencion && 1 <= nextPk
      && (forall id :: id in atenciones ==> 1 <= id < nextAtencion)
      && (forall pk :: pk in details ==>
            1 <= pk < nextPk && details[pk].atencion in atenciones && details[pk].medicamento < stock.Length)
    }

    constructor (medicamentos: seq<nat>)
      ensures Valid() && fresh(stock)
      ensures stock[..] == medicamentos
      ensures atenciones == map[] && details == map[] && audit == []
      ensures nextAtencion == 1 && nextPk == 1
    {
      stock := new nat[|medicamentos|](i requires 0 <= i < |medicamentos| => medicamentos[i]);
      atenciones, nextAtencion := map[], 1;
      details, nextPk := map[], 1;
      audit := [];
    }

    /**
     * Create: check every row against its own medication's stock, refuse the
     * submission if any row failed, else save the header and the lines,
     * charge the last row's medication with every row's quantity, and record 'A'.
     */
    method CreateAtencion(header: Atencion, rows: seq<CreateRow>) returns (outcome: CreateOutcome)
      requires Valid()
      requires MedsKnown(stock.Length, rows)
      modifies this, stock
      ensures Valid() && stock == old(stock)
      ensures outcome == CreateResult(old(stock[..]), rows, old(nextAtencion))
      ensures outcome.Created? ==>
                && stock[..] == CreateStock(old(stock[..]), rows)
                && atenciones == old(atenciones)[outcome.atencion := header]
                && Cantidad(atenciones) == Cantidad(old(atenciones)) + 1
                && nextAtencion == old(nextAtencion) + 1
                && details == old(details) + NewDetails(old(nextPk), outcome.atencion, rows)
                && nextPk == old(nextPk) + |rows|
                && audit == old(audit) + [AuditEvent(outcome.atencion, Added)]
      ensures !outcome.Created? ==> unchanged(this) && stock[..] == old(stock[..])
    {
      var messages := ValidateRows(rows);
      if messages != [] {
        return Rejected(messages);
      }
      var id := nextAtencion;
      CantidadAfterSave(atenciones, id, header);
      var committed := SaveAndCharge(header, rows);
      if !committed {
        return RolledBack;
      }
      audit := audit + [AuditEvent(id, Added)];
      return Created(id);
    }

    /** The validation loop of the create: every row against its own medication, one message per failure. */
    method ValidateRows(rows: seq<CreateRow>) returns (messages: seq<Message>)
      requires MedsKnown(stock.Length, rows)
      ensures messages == CreateMessages(stock[..], rows)
    {
      messages := [];
      var i := 0;
      while i < |rows|
        invariant 0 <= i <= |rows|
        invariant MedsKnown(stock.Length, rows[..i])
        invariant messages == CreateMessages(stock[..], rows[..i])
      {
        var r := rows[i];
        CreateMessagesStep(stock[..], rows, i);
        if r.cantidad > stock[r.medicamento] {
          messages := messages + [InsufficientStock(r.medicamento)];
        } else if r.cantidad <= 0 {
          messages := messages + [NonPositiveQuantity];
        }
        i := i + 1;
      }
      assert rows[..|rows|] == rows;
    }

    /**
     * The transaction of the create once every row passed: save the header,
     * then each line while taking its quantity off the medication of the last
     * row. A stock that would go negative aborts the transaction and nothing
     * is kept.
     */
    method SaveAndCharge(header: Atencion, rows: seq<CreateRow>) returns (committed: bool)
      requires Valid()
      requires MedsKnown(stock.Length, rows) && CreateMessages(stock[..], rows) == []
      modifies this`atenciones, this`nextAtencion, this`details, this`nextPk, stock
      ensures Valid()
      ensures committed <==> CreateCommits(old(stock[..]), rows)
      ensures committed ==>
                && stock[..] == CreateStock(old(stock[..]), rows)
                && atenciones == old(atenciones)[old(nextAtencion) := header]
                && nextAtencion == old(nextAtencion) + 1
                && details == old(details) + NewDetails(old(nextPk), old(nextAtencion), rows)
                && nextPk == old(nextPk) + |rows|
      ensures !committed ==> unchanged(this) && stock[..] == old(stock[..])
    {
      var savedStock := stock[..];
      var savedAtenciones, savedNextAtencion := atenciones, nextAtencion;
      var savedDetails, savedNextPk := details, nextPk;
      var id := nextAtencion;
      atenciones, nextAtencion := atenciones[id := header], nextAtencion + 1;
      if rows == [] {
        assert stock[..] == savedStock;
        return true;
      }
      // The deduction loop uses the medication the validation loop visited last.
      var charged := rows[|rows| - 1].medicamento;
      committed := SaveLines(id, charged, rows);
      if !committed {
        // Saving a negative stock fails and the whole transaction is rolled back.
        stock[charged] := savedStock[charged];
        atenciones, nextAtencion := savedAtenciones, savedNextAtencion;
        details, nextPk := savedDetails, savedNextPk;
        assert stock[..] == savedStock;
        return;
      }
      NewDetailsFit(savedNextPk, id, rows, stock.Length);
    }

    /**
     * The deduction loop of the create: save each line under the next key and
     * take its quantity off the stock of `charged`, stopping at the first
     * line the remaining stock cannot cover.
     */
    method SaveLines(id: nat, charged: nat, rows: seq<CreateRow>) returns (ok: bool)
      requires charged < stock.Length
      modifies this`details, this`nextPk, stock
      ensures ok <==> Requested(rows) <= old(stock[charged])
      ensures stock[..] == old(stock[..])[charged := stock[charged]]
      ensures ok ==>
                && stock[charged] + Requested(rows) == old(stock[charged])
                && details == old(details) + NewDetails(old(nextPk), id, rows)
                && nextPk == old(nextPk) + |rows|
    {
      ghost var stored, base := details, nextPk;
      var onHand: nat := stock[charged];
      var j := 0;
      while j < |rows|
        invariant 0 <= j <= |rows|
        invariant onHand + Requested(rows[..j]) == old(stock[charged])
        invariant stock[..] == old(stock[..])[charged := onHand]
        invariant details == stored + NewDetails(base, id, rows[..j])
        invariant nextPk == base + j
      {
        var r := rows[j];
        RequestedStep(rows, j);
        if r.cantidad > onHand {
          RequestedPrefix(rows, j + 1);
          return false;
        }
        onHand := onHand - r.cantidad;
        stock[charged] := onHand;
        var line := DetalleAtencion(id, r.medicamento, r.cantidad);
        SaveLineStep(stored, base, id, rows, j);
        details := details[nextPk := line];
        nextPk := nextPk + 1;
        j := j + 1;
      }
      assert rows[..j] == rows;
      return true;
    }

    /**
     * Create as evidently intended: the same checks, then every row charges
     * its own medication; a medication that cannot cover all the units asked
     * of it rolls the whole transaction back.
     */
    method CreateAtencionIntended(header: Atencion, rows: seq<CreateRow>) returns (outcome: CreateOutcome)
      requires Valid()
      requires MedsKnown(stock.Length, rows)
      modifies this, stock
      ensures Valid() && stock == old(stock)
      ensures outcome == IntendedCreateResult(old(stock[..]), rows, old(nextAtencion))
      ensures outcome.Created? ==>
                && stock[..] == ChargeEach(old(stock[..]), rows)
                && atenciones == old(atenciones)[outcome.atencion := header]
                && nextAtencion == old(nextAtencion) + 1
                && details == old(details) + NewDetails(old(nextPk), outcome.atencion, rows)
                && nextPk == old(nextPk) + |rows|
                && audit == old(audit) + [AuditEvent(outcome.atencion, Added)]
      ensures !outcome.Created? ==> unchanged(this) && stock[..] == old(stock[..])
    {
      var messages := ValidateRows(rows);
      if messages != [] {
        return Rejected(messages);
      }
      var committed := ChargeEachRow(rows);
      if !committed {
        return RolledBack;
      }
      var id := SaveHeaderAndLines(header, rows);
      audit := audit + [AuditEvent(id, Added)];
      return Created(id);
    }

    /** The header of a committed create under the next id, then its lines under the next keys. */
    method SaveHeaderAndLines(header: Atencion, rows: seq<CreateRow>) returns (id: nat)
      requires Valid() && MedsKnown(stock.Length, rows)
      modifies this`atenciones, this`nextAtencion, this`details, this`nextPk
      ensures Valid()
      ensures id == old(nextAtencion)
      ensures atenciones == old(atenciones)[id := header] && nextAtencion == old(nextAtencion) + 1
      ensures details == old(details) + NewDetails(old(nextPk), id, rows)
      ensures nextPk == old(nextPk) + |rows|
    {
      id := nextAtencion;
      atenciones, nextAtencion := atenciones[id := header], nextAtencion + 1;
      SaveNewLines(id, rows);
      NewDetailsFit(old(nextPk), id, rows, stock.Length);
    }

    /**
     * Each row takes its quantity off its own medication, one row after the
     * other; a row its medication can no longer cover puts every stock back.
     */
    method ChargeEachRow(rows: seq<CreateRow>) returns (ok: bool)
      requires MedsKnown(stock.Length, rows)
      modifies stock
      ensures ok <==> CoversEach(old(stock[..]), rows)
      ensures ok ==> stock[..] == ChargeEach(old(stock[..]), rows)
      ensures !ok ==> stock[..] == old(stock[..])
    {
      var saved := stock[..];
      var j := 0;
      while j < |rows|
        invariant 0 <= j <= |rows|
        invariant forall m :: 0 <= m < stock.Length ==> stock[m] + Units(rows[..j], m) == saved[m]
      {
        var r := rows[j];
        UnitsStep(rows, j);
        if r.cantidad > stock[r.medicamento] {
          UnitsPrefix(rows, j + 1, r.medicamento);
          forall k | 0 <= k < stock.Length {
            stock[k] := saved[k];
          }
          assert stock[..] == saved;
          return false;
        }
        stock[r.medicamento] := stock[r.medicamento] - r.cantidad;
        j := j + 1;
      }
      assert rows[..j] == rows;
      assert CoversEach(saved, rows);
      assert stock[..] == ChargeEach(saved, rows);
      return true;
    }

    /** The lines of a committed create, saved one by one under the next keys. */
    method SaveNewLines(id: nat, rows: seq<CreateRow>)
      modifies this`details, this`nextPk
      ensures details == old(details) + NewDetails(old(nextPk), id, rows)
      ensures nextPk == old(nextPk) + |rows|
    {
      ghost var stored, base := details, nextPk;
      var j := 0;
      while j < |rows|
        invariant 0 <= j <= |rows|
        invariant details == stored + NewDetails(base, id, rows[..j])
        invariant nextPk == base + j
      {
        SaveLineStep(stored, base, id, rows, j);
        details := details[nextPk := DetalleAtencion(id, rows[j].medicamento, rows[j].cantidad)];
        nextPk := nextPk + 1;
        j := j + 1;
      }
      assert rows[..j] == rows;
    }

    /**
     * Update: save the header; for each new or changed row compare the extra
     * units with the stock read before the submission, refuse the row or
     * write that stock minus the extra units and save the line; give back the
     * quantity of each deleted line; record 'M' only when no row was refused.
     * Everything done is kept even when some row was refused.
     */
    method UpdateAtencion(id: nat, header: Atencion, rows: seq<UpdateRow>, deleted: seq<DeletedRow>)
      returns (outcome: UpdateOutcome)
      requires Valid()
      requires id in atenciones
      requires UpdateRowsFit(stock.Length, details, rows) && DistinctPks(rows)
      requires DeletionsFit(stock.Length, deleted)
      modifies this, stock
      ensures Valid() && stock == old(stock)
      ensures atenciones == old(atenciones)[id := header] && nextAtencion == old(nextAtencion)
      ensures Tables(stock[..], details, nextPk) ==
                UpdateTables(old(stock[..]), id, Tables(old(stock[..]), old(details), old(nextPk)), rows, deleted)
      ensures outcome == UpdateResult(old(stock[..]), old(details), rows)
      ensures audit == old(audit) + (if outcome.Updated? then [AuditEvent(id, Modified)] else [])
    {
      // Each row's medication record, as loaded when the formset was validated.
      var snapshot := stock[..];
      atenciones := atenciones[id := header];
      var messages := SaveRows(id, snapshot, rows);
      ReturnDeleted(snapshot, deleted);
      if messages != [] {
        return PartiallyRejected(messages);
      }
      audit := audit + [AuditEvent(id, Modified)];
      return Updated;
    }

    /**
     * The formset loop of the update: a row whose extra units exceed the stock
     * read before the submission, or whose quantity is not positive, yields a
     * message; any other row writes that stock minus its extra units and saves
     * its line, at its own pk or at a fresh one.
     */
    method SaveRows(id: nat, snapshot: seq<nat>, rows: seq<UpdateRow>) returns (messages: seq<Message>)
      requires Valid() && id in atenciones && |snapshot| == stock.Length
      requires UpdateRowsFit(stock.Length, details, rows) && DistinctPks(rows)
      modifies this`details, this`nextPk, stock
      ensures Valid()
      ensures Tables(stock[..], details, nextPk) ==
                ApplyRows(snapshot, id, Tables(old(stock[..]), old(details), old(nextPk)), rows)
      ensures messages == UpdateMessages(snapshot, old(details), rows)
    {
      ghost var t0 := Tables(stock[..], details, nextPk);
      messages := [];
      var i := 0;
      while i < |rows|
        invariant 0 <= i <= |rows|
        invariant Tables(stock[..], details, nextPk) == ApplyRows(snapshot, id, t0, rows[..i])
        invariant messages == UpdateMessages(snapshot, t0.details, rows[..i])
        invariant Valid()
      {
        UpdateMessagesStep(snapshot, t0.details, rows, i);
        var e := SaveRow(id, snapshot, t0, rows, i);
        if e.Some? {
          messages := messages + [e.value];
        }
        i := i + 1;
      }
      assert rows[..|rows|] == rows;
    }

    /**
     * Row `i` of the update's formset loop, after rows 0 to i - 1: the message
     * it yields, or the stock write and the saved line. `t0` holds the tables
     * as they were before the loop; the row's original quantity is read from
     * the stored line, which no earlier row has touched.
     */
    method SaveRow(id: nat, snapshot: seq<nat>, ghost t0: Tables, rows: seq<UpdateRow>, i: nat)
      returns (e: Option<Message>)
      requires Valid() && id in atenciones && |snapshot| == stock.Length == |t0.stock|
      requires UpdateRowsFit(stock.Length, t0.details, rows) && DistinctPks(rows) && i < |rows|
      requires forall k :: k in t0.details ==> k < t0.nextPk
      requires Tables(stock[..], details, nextPk) == ApplyRows(snapshot, id, t0, rows[..i])
      modifies this`details, this`nextPk, stock
      ensures Valid()
      ensures e == UpdateRowError(snapshot, t0.details, rows[i])
      ensures Tables(stock[..], details, nextPk) == ApplyRows(snapshot, id, t0, rows[..i + 1])
    {
      ApplyRowsStep(snapshot, id, t0, rows, i);
      ghost var t := Tables(stock[..], details, nextPk);
      var r := rows[i];
      if r.pk.Some? {
        PendingLineUnchanged(snapshot, id, t0, rows, i, i);
      }
      // The quantity stored before this submission; 0 for a new row.
      var original := if r.pk.Some? then details[r.pk.value].cantidad else 0;
      var delta := r.cantidad - original;
      assert delta == Delta(t0.details, r);
      if delta > snapshot[r.medicamento] {
        e := Some(InsufficientStock(r.medicamento));
      } else if r.cantidad <= 0 {
        e := Some(NonPositiveQuantity);
      } else {
        e := None;
        stock[r.medicamento] := snapshot[r.medicamento] - delta;
        assert stock[..] == t.stock[r.medicamento := snapshot[r.medicamento] - delta];
        StoreLine(DetalleAtencion(id, r.medicamento, r.cantidad), r.pk);
      }
      assert Tables(stock[..], details, nextPk) == ApplyRow(snapshot, id, t0.details, t, r);
    }

    /** `instance.save()`: over the line's stored key, or under the next key for a new line. */
    method StoreLine(line: DetalleAtencion, pk: Option<nat>)
      requires Valid() && line.atencion in atenciones && line.medicamento < stock.Length
      requires pk.Some? ==> pk.value in details
      modifies this`details, this`nextPk
      ensures Valid()
      ensures pk.Some? ==> details == old(details)[pk.value := line] && nextPk == old(nextPk)
      ensures pk.None? ==> details == old(details)[old(nextPk) := line] && nextPk == old(nextPk) + 1
    {
      if pk.Some? {
        details := details[pk.value := line];
      } else {
        details := details[nextPk := line];
        nextPk := nextPk + 1;
      }
    }

    /** The deletion loop of the update: each deleted line gives its quantity back to the stock read before the submission. */
    method ReturnDeleted(snapshot: seq<nat>, deleted: seq<DeletedRow>)
      requires Valid() && |snapshot| == stock.Length
      requires DeletionsFit(stock.Length, deleted)
      modifies this`details, this`nextPk, stock
      ensures Valid()
      ensures Tables(stock[..], details, nextPk) ==
                ApplyDeletions(snapshot, Tables(old(stock[..]), old(details), old(nextPk)), deleted)
    {
      ghost var t1 := Tables(stock[..], details, nextPk);
      var j := 0;
      while j < |deleted|
        invariant 0 <= j <= |deleted|
        invariant Tables(stock[..], details, nextPk) == ApplyDeletions(snapshot, t1, deleted[..j])
        invariant Valid()
      {
        var d := deleted[j];
        ApplyDeletionsStep(snapshot, t1, deleted, j);
        stock[d.medicamento] := snapshot[d.medicamento] + d.cantidad;
        details := details - {d.pk};
        j := j + 1;
      }
      assert deleted[..|deleted|] == deleted;
    }
  }
}
