/** The client's view of the roster: the search filter, the form check
    that builds the create request, the unwrap of the create reply, the
    list updaters after create and delete, and the load fallback. */
module App {
  import opened JsValues
  import opened JsString
  import opened JsArray

  /** A record as the client holds it; `nombre` and `correo` may be absent
      from the JSON it received. */
  datatype Entry = Entry(id: int, nombre: Option<string>, correo: Option<string>)

  /** The parsed body of the list request: an array, or anything else. */
  datatype LoadBody = ArrayBody(items: seq<Entry>) | OtherBody

  const NOMBRE_OBLIGATORIO := "El nombre es obligatorio"

  /** `Array.isArray(data) ? data : []`. */
  function Loaded(data: LoadBody): (r: seq<Entry>)
    ensures data.ArrayBody? ==> r == data.items
    ensures data.OtherBody? ==> r == []
  {
    match data
    case ArrayBody(items) => items
    case OtherBody => []
  }

  /** `field?.toLowerCase().includes(term)`: an absent field never matches. */
  predicate FieldMatches(field: Option<string>, term: string): (b: bool)
    ensures b ==> field.Some? && |term| <= |field.value|
  {
    field.Some? && Includes(Lower(field.value), term)
  }

  /** The callback of the search filter. */
  function MatchesTerm(term: string): (keep: Entry -> bool)
    ensures forall e: Entry :: e.nombre.None? && e.correo.None? ==> !keep(e)
    ensures forall e: Entry :: keep(e) <==> FieldMatches(e.nombre, term) || FieldMatches(e.correo, term)
  {
    (e: Entry) => FieldMatches(e.nombre, term) || FieldMatches(e.correo, term)
  }

  /** `listaFiltrada`: the whole list for a blank query, otherwise the
      records whose name or email contains the lower-cased (untrimmed)
      query. */
  function Filtered(estudiantes: seq<Entry>, busqueda: string): (r: seq<Entry>)
    ensures forall e :: e in r ==> e in estudiantes
    ensures !IsBlank(busqueda) ==> forall e :: e in r ==> MatchesTerm(Lower(busqueda))(e)
  {
    if IsBlank(busqueda) then estudiantes
    else Filter(estudiantes, MatchesTerm(Lower(busqueda)))
  }

  /** A query made only of whitespace (or empty) shows the whole list. */
  lemma BlankQueryShowsAll(estudiantes: seq<Entry>, busqueda: string)
    requires AllWhitespace(busqueda)
    ensures Filtered(estudiantes, busqueda) == estudiantes
  {
    BlankIffAllWhitespace(busqueda);
  }

  /** The shown list is an order-preserving subsequence of the list, so
      the "Mostrando" count never exceeds the "Total estudiantes" count. */
  lemma FilteredIsSubsequence(estudiantes: seq<Entry>, busqueda: string)
    ensures IsSubsequence(Filtered(estudiantes, busqueda), estudiantes)
    ensures |Filtered(estudiantes, busqueda)| <= |estudiantes|
  {
    var r := Filtered(estudiantes, busqueda);
    if IsBlank(busqueda) {
      SubsequenceOfItself(estudiantes);
    } else {
      FilterIsSubsequence(estudiantes, MatchesTerm(Lower(busqueda)));
    }
    SubsequenceLength(r, estudiantes);
  }

  /** For a query that is not blank, a record is shown exactly when its
      lower-cased name or email contains the lower-cased query, and it is
      shown as often as it occurs in the list. */
  lemma FilteredKeepsExactlyMatches(estudiantes: seq<Entry>, busqueda: string, e: Entry)
    requires exists i :: 0 <= i < |busqueda| && !IsWhitespace(busqueda[i])
    ensures var term := Lower(busqueda);
            var shown := FieldMatches(e.nombre, term) || FieldMatches(e.correo, term);
            (e in Filtered(estudiantes, busqueda) <==> e in estudiantes && shown) &&
            multiset(Filtered(estudiantes, busqueda))[e] == if shown then multiset(estudiantes)[e] else 0
  {
    BlankIffAllWhitespace(busqueda);
    FilterCount(estudiantes, MatchesTerm(Lower(busqueda)), e);
  }

  /** The query is lower-cased but not trimmed: " ANA" does not match the
      name "Ana" (the leading space stays), while "AN" does. */
  lemma QueryLowerCasedNotTrimmed()
    ensures !FieldMatches(Some("Ana"), Lower(" ANA"))
    ensures FieldMatches(Some("Ana"), Lower("AN"))
  {
    LowerExamples();
    assert !Includes("ana", " ana");
    assert "an" <= "ana"[0..];
  }

  lemma LowerExamples()
    ensures Lower("Ana") == "ana" && Lower(" ANA") == " ana" && Lower("AN") == "an"
  {
    assert LowerChar('A') == 'a' && LowerChar('N') == 'n';
    assert LowerChar(' ') == ' ' && LowerChar('a') == 'a' && LowerChar('n') == 'n';
    assert Lower("Ana") == "ana" by {
      assert |Lower("Ana")| == 3;
    }
    assert Lower(" ANA") == " ana" by {
      assert |Lower(" ANA")| == 4;
    }
    assert Lower("AN") == "an" by {
      assert |Lower("AN")| == 2;
    }
  }

  /** The body of the create request. */
  datatype Payload = Payload(nombre: string, correo: string)

  /** What submitting the form does: refuse locally, or send a payload. */
  datatype Submission = Rejected(message: string) | Send(payload: Payload)

  /** The form check of `crearEstudiante`: a name that is blank after
      trimming is refused with "El nombre es obligatorio" and nothing is
      sent; otherwise both fields are sent trimmed. */
  function ValidateForm(nombre: string, correo: string): (r: Submission)
    ensures r.Rejected? <==> AllWhitespace(nombre)
    ensures r.Rejected? ==> r.message == NOMBRE_OBLIGATORIO
    ensures r.Send? ==> r.payload.nombre == Trim(nombre) && r.payload.correo == Trim(correo)
  {
    var t := Trim(nombre);
    BlankIffAllWhitespace(nombre);
    if t == "" then Rejected(NOMBRE_OBLIGATORIO)
    else Send(Payload(t, Trim(correo)))
  }

  /** The name the form sends is not empty and neither starts nor ends
      with whitespace. */
  lemma SentNameIsTrimmed(nombre: string, correo: string)
    requires ValidateForm(nombre, correo).Send?
    ensures var n := ValidateForm(nombre, correo).payload.nombre;
            n != "" && !IsWhitespace(n[0]) && !IsWhitespace(n[|n| - 1])
  {
    assert Trim(nombre) != "";
  }

  /** Both fields the form sends are already trimmed: trimming them again
      changes nothing. */
  lemma PayloadIsTrimmed(nombre: string, correo: string)
    requires ValidateForm(nombre, correo).Send?
    ensures var p := ValidateForm(nombre, correo).payload;
            Trim(p.nombre) == p.nombre && Trim(p.correo) == p.correo
  {
    TrimIdempotent(nombre);
    TrimIdempotent(correo);
  }

  /** The parsed reply to the create request: the object itself read as a
      record, and its `estudiante` field when that is present. */
  datatype CreateReply = CreateReply(fields: Entry, estudiante: Option<Entry>)

  /** `nuevo.estudiante || nuevo`. */
  function Unwrap(nuevo: CreateReply): (est: Entry)
    ensures nuevo.estudiante.Some? ==> est == nuevo.estudiante.value
    ensures nuevo.estudiante.None? ==> est == nuevo.fields
  {
    ObjectOr(nuevo.estudiante, nuevo.fields)
  }

  /** `prev => [...prev, est]`: the previous list unchanged, then `est`. */
  function Appended(prev: seq<Entry>, est: Entry): (r: seq<Entry>)
    ensures |r| == |prev| + 1 && r[..|prev|] == prev && r[|prev|] == est
  {
    prev + [est]
  }

  /** The callback of `prev.filter((e) => e.id !== id)`. */
  function NotId(id: int): Entry -> bool
  {
    (e: Entry) => e.id != id
  }

  /** `prev => prev.filter((e) => e.id !== id)`. */
  function Removed(prev: seq<Entry>, id: int): (r: seq<Entry>)
    ensures forall e :: e in r <==> e in prev && e.id != id
  {
    Filter(prev, NotId(id))
  }

  /** After a delete the list holds no record with that id; every other
      record stays, as often as before and in the same order. */
  lemma RemovedDropsOnlyThatId(prev: seq<Entry>, id: int, e: Entry)
    ensures forall i :: 0 <= i < |Removed(prev, id)| ==> Removed(prev, id)[i].id != id
    ensures IsSubsequence(Removed(prev, id), prev)
    ensures e.id != id ==> multiset(Removed(prev, id))[e] == multiset(prev)[e]
  {
    var r := Removed(prev, id);
    forall i | 0 <= i < |r| ensures r[i].id != id {
      assert r[i] in r;
    }
    FilterCount(prev, NotId(id), e);
    FilterIsSubsequence(prev, NotId(id));
  }
}
