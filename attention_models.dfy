/**
 * The entities of the attention application and the rules its models carry:
 * the appointment validator (CitaMedica.clean) and the small count and
 * existence queries next to it (cantidad_disponible_hoy, Atencion.cantidad,
 * Atencion.tiene_relaciones). Stored rows are passed in as collections and
 * "today" is a parameter.
 */
module AttentionModels {
  import opened Wrappers

  // ---------------------------------------------------------------------------
  // Time of day and calendar dates
  // ---------------------------------------------------------------------------

  /** A time of day is a number of seconds since midnight. */
  const SecondsPerDay: nat := 86400

  type TimeOfDay = t: nat | t < SecondsPerDay

  /** Opening and closing time of the clinic, 08:00 and 17:00, both allowed. */
  const HoraMinima: TimeOfDay := 8 * 3600
  const HoraMaxima: TimeOfDay := 17 * 3600

  /** The gap added to a taken slot to suggest the next one: 30 minutes. */
  const SlotGap: nat := 30 * 60

  /** A date is its proleptic Gregorian ordinal; day 1 is Monday, 1 January of year 1. */
  type Date = d: nat | 1 <= d witness 1

  /** Python's date.weekday(): Monday is 0 and Sunday is 6. */
  const Sunday: nat := 6

  function Weekday(fecha: Date): (w: nat)
    ensures w < 7
  {
    (fecha + 6) % 7
  }

  /**
   * The weekday of every date: day 1 (1 January of year 1) is a Monday,
   * 3 November 2024 (ordinal 739193) a Sunday, and each next day is the next
   * weekday.
   */
  lemma WeekdayCalendar(d: Date)
    ensures Weekday(1) == 0
    ensures Weekday(739193) == Sunday && Weekday(739194) == 0
    ensures Weekday(d + 1) == (Weekday(d) + 1) % 7
  {
    var w := Weekday(d);
    var q := (d + 6) / 7;
    assert d + 6 == 7 * q + w;
    if w < 6 {
      ModSeven(d + 7, q, w + 1);
    } else {
      ModSeven(d + 7, q + 1, 0);
    }
  }

  /** The remainder by 7 is the one of any decomposition with a remainder below 7. */
  lemma ModSeven(a: nat, q: int, r: nat)
    requires a == 7 * q + r && r < 7
    ensures a % 7 == r
  {
  }

  // ---------------------------------------------------------------------------
  // Entities
  // ---------------------------------------------------------------------------

  /** The states of an appointment: scheduled, cancelled, done. */
  datatype EstadoCita = Programada | Cancelada | Realizada

  /** An appointment; `id` is None until the appointment has been saved. */
  datatype CitaMedica = CitaMedica(
    id: Option<nat>,
    paciente: nat,
    fecha: Date,
    horaCita: TimeOfDay,
    estado: EstadoCita)

  /** The header of a clinical encounter. */
  datatype Atencion = Atencion(
    paciente: nat,
    motivoConsulta: string,
    tratamiento: string,
    comentario: Option<string>,
    diagnosticos: set<nat>)

  /** One prescribed-medication line of an encounter. */
  datatype DetalleAtencion = DetalleAtencion(atencion: nat, medicamento: nat, cantidad: nat)

  /** A cost record; only the encounter it belongs to matters here. */
  datatype CostosAtencion = CostosAtencion(atencion: nat, activo: bool)

  // ---------------------------------------------------------------------------
  // CitaMedica.clean
  // ---------------------------------------------------------------------------

  /** The fields an appointment error is attached to. */
  datatype CitaField = Fecha | HoraCita

  datatype CitaError =
    | SlotTaken(siguienteHora: TimeOfDay)  // another appointment holds this date and time
    | ClosedOnSunday
    | OutsideHours

  /** The outcome of clean(): accepted, or a ValidationError holding the error map. */
  datatype CleanResult = Accepted | Invalid(errors: map<CitaField, CitaError>)

  /** Some stored appointment other than `cita` itself (by id) holds the same date and time. */
  predicate SlotConflict(cita: CitaMedica, citas: seq<CitaMedica>)
  {
    exists i :: 0 <= i < |citas| && citas[i].fecha == cita.fecha
      && citas[i].horaCita == cita.horaCita && citas[i].id != cita.id
  }

  predicate WithinHours(hora: TimeOfDay)
  {
    HoraMinima <= hora <= HoraMaxima
  }

  /** The time-of-day part of (date, hora) + 30 minutes: it wraps past midnight. */
  function SiguienteHora(hora: TimeOfDay): (s: TimeOfDay)
    ensures hora + SlotGap < SecondsPerDay ==> s == hora + SlotGap
    ensures hora + SlotGap >= SecondsPerDay ==> s + SecondsPerDay == hora + SlotGap
  {
    (hora + SlotGap) % SecondsPerDay
  }

  /**
   * The error map clean() builds, one rule after the other: slot conflict,
   * Sunday, opening hours. The hours rule writes the same key as the conflict
   * rule and so replaces its message.
   */
  function CleanErrors(cita: CitaMedica, citas: seq<CitaMedica>): (errors: map<CitaField, CitaError>)
    ensures Fecha in errors <==> Weekday(cita.fecha) == Sunday
    ensures Fecha in errors ==> errors[Fecha] == ClosedOnSunday
    ensures HoraCita in errors <==> SlotConflict(cita, citas) || !WithinHours(cita.horaCita)
    ensures !WithinHours(cita.horaCita) ==> errors[HoraCita] == OutsideHours
    ensures HoraCita in errors && WithinHours(cita.horaCita) ==>
              errors[HoraCita] == SlotTaken(cita.horaCita + SlotGap)
  {
    var errors0: map<CitaField, CitaError> := map[];
    var errors1 :=
      if SlotConflict(cita, citas) then errors0[HoraCita := SlotTaken(SiguienteHora(cita.horaCita))]
      else errors0;
    var errors2 := if Weekday(cita.fecha) == Sunday then errors1[Fecha := ClosedOnSunday] else errors1;
    if !WithinHours(cita.horaCita) then errors2[HoraCita := OutsideHours] else errors2
  }

  /** clean(): the appointment is accepted exactly when no rule fired. */
  function Clean(cita: CitaMedica, citas: seq<CitaMedica>): (r: CleanResult)
    ensures r.Accepted? <==>
              !SlotConflict(cita, citas) && Weekday(cita.fecha) != Sunday && WithinHours(cita.horaCita)
    ensures r.Invalid? ==> r.errors != map[] && r.errors == CleanErrors(cita, citas)
  {
    var errors := CleanErrors(cita, citas);
    if errors == map[] then Accepted else Invalid(errors)
  }

  /** Editing an appointment never conflicts with its own stored version, wherever that one lies. */
  lemma {:induction false} OwnRowNeverConflicts(cita: CitaMedica, stored: CitaMedica, citas: seq<CitaMedica>)
    requires stored.id == cita.id
    ensures SlotConflict(cita, citas + [stored]) == SlotConflict(cita, citas)
  {
    var all := citas + [stored];
    if SlotConflict(cita, all) {
      var i :| 0 <= i < |all| && all[i].fecha == cita.fecha
        && all[i].horaCita == cita.horaCita && all[i].id != cita.id;
      assert i < |citas| && citas[i] == all[i];
    }
    if SlotConflict(cita, citas) {
      var i :| 0 <= i < |citas| && citas[i].fecha == cita.fecha
        && citas[i].horaCita == cita.horaCita && citas[i].id != cita.id;
      assert all[i] == citas[i];
    }
  }

  /** A new appointment (no id yet) conflicts with every stored one at its slot. */
  lemma NewAppointmentConflictsWithAnyAtSlot(cita: CitaMedica, citas: seq<CitaMedica>, i: nat)
    requires cita.id.None? && i < |citas| && citas[i].id.Some?
    requires citas[i].fecha == cita.fecha && citas[i].horaCita == cita.horaCita
    ensures Clean(cita, citas).Invalid? && HoraCita in Clean(cita, citas).errors
  {
  }

  /** A Sunday is refused whatever the time and whatever else is stored. */
  lemma SundayAlwaysRefused(cita: CitaMedica, citas: seq<CitaMedica>)
    requires Weekday(cita.fecha) == Sunday
    ensures Clean(cita, citas).Invalid? && Clean(cita, citas).errors[Fecha] == ClosedOnSunday
  {
  }

  /** Both ends of the window are allowed, one second beyond either end is not. */
  lemma OpeningWindowInclusive()
    ensures WithinHours(HoraMinima) && WithinHours(HoraMaxima)
    ensures !WithinHours(HoraMinima - 1) && !WithinHours(HoraMaxima + 1)
  {
  }

  /** The suggestion wraps past midnight: 23:45 suggests 00:15. */
  lemma SuggestionWrapsPastMidnight()
    ensures SiguienteHora(23 * 3600 + 45 * 60) == 15 * 60
  {
  }

  /**
   * Booking Monday 4 November 2024 (ordinal 739194) at 09:00 on an empty
   * calendar succeeds; a second booking of the same slot is refused with
   * 09:30 as the suggested time.
   */
  lemma DoubleBookingScenario(p: nat, q: nat)
    ensures Clean(CitaMedica(None, p, 739194, 9 * 3600, Programada), []) == Accepted
    ensures var first := CitaMedica(Some(1), p, 739194, 9 * 3600, Programada);
            Clean(CitaMedica(None, q, 739194, 9 * 3600, Programada), [first])
              == Invalid(map[HoraCita := SlotTaken(9 * 3600 + 30 * 60)])
  {
    var first := CitaMedica(Some(1), p, 739194, 9 * 3600, Programada);
    var second := CitaMedica(None, q, 739194, 9 * 3600, Programada);
    assert SlotConflict(second, [first]) by {
      assert [first][0] == first;
    }
    var errors := CleanErrors(second, [first]);
    assert errors.Keys == {HoraCita};
  }

  // ---------------------------------------------------------------------------
  // Count and existence queries
  // ---------------------------------------------------------------------------

  /** cantidad_disponible_hoy(): stored appointments dated today, whatever their state. */
  function CantidadDisponibleHoy(citas: seq<CitaMedica>, hoy: Date): (n: nat)
    ensures n <= |citas|
    ensures n == 0 <==> forall i :: 0 <= i < |citas| ==> citas[i].fecha != hoy
    ensures n == |citas| <==> forall i :: 0 <= i < |citas| ==> citas[i].fecha == hoy
  {
    if citas == [] then 0
    else
      var init := citas[..|citas| - 1];
      assert forall i :: 0 <= i < |init| ==> init[i] == citas[i];
      CantidadDisponibleHoy(init, hoy) + (if citas[|citas| - 1].fecha == hoy then 1 else 0)
  }

  /** The count depends on the dates alone: states (and patients, times) play no part. */
  lemma {:induction false} CantidadDisponibleHoyIgnoresEstado(a: seq<CitaMedica>, b: seq<CitaMedica>, hoy: Date)
    requires |a| == |b|
    requires forall i :: 0 <= i < |a| ==> a[i].fecha == b[i].fecha
    ensures CantidadDisponibleHoy(a, hoy) == CantidadDisponibleHoy(b, hoy)
  {
    if a != [] {
      CantidadDisponibleHoyIgnoresEstado(a[..|a| - 1], b[..|b| - 1], hoy);
    }
  }

  /** Counting two collections of appointments one after the other adds up. */
  lemma {:induction false} CantidadDisponibleHoyAppend(a: seq<CitaMedica>, b: seq<CitaMedica>, hoy: Date)
    ensures CantidadDisponibleHoy(a + b, hoy) == CantidadDisponibleHoy(a, hoy) + CantidadDisponibleHoy(b, hoy)
  {
    if b != [] {
      CantidadDisponibleHoyAppend(a, b[..|b| - 1], hoy);
      assert (a + b)[..|a + b| - 1] == a + b[..|b| - 1];
    } else {
      assert a + b == a;
    }
  }

  /** Atencion.cantidad(): the number of stored encounters. */
  function Cantidad(atenciones: map<nat, Atencion>): (n: nat)
    ensures n == 0 <==> atenciones == map[]
  {
    |atenciones|
  }

  /** Saving a new encounter raises the count by one; saving an existing one again does not. */
  lemma CantidadAfterSave(atenciones: map<nat, Atencion>, id: nat, a: Atencion)
    ensures id !in atenciones ==> Cantidad(atenciones[id := a]) == Cantidad(atenciones) + 1
    ensures id in atenciones ==> Cantidad(atenciones[id := a]) == Cantidad(atenciones)
  {
  }

  /** Atencion.tiene_relaciones(): some cost record, active or not, belongs to the encounter. */
  function TieneRelaciones(atencion: nat, costos: seq<CostosAtencion>): (r: bool)
    ensures r <==> exists i :: 0 <= i < |costos| && costos[i].atencion == atencion
  {
    if costos == [] then false
    else
      var init := costos[..|costos| - 1];
      assert forall i :: 0 <= i < |init| ==> init[i] == costos[i];
      costos[|costos| - 1].atencion == atencion || TieneRelaciones(atencion, init)
  }
}
