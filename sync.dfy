/** The client and the backend together: the client's list is the JSON
    view of the backend's array, and the client's create, delete and load
    flows keep it so. The network round trip is a direct call on the
    store. */
module Sync {
  import opened JsValues
  import opened JsString
  import opened JsArray
  import opened Roster
  import opened App

  /** A stored record as the client receives it in JSON. */
  function Received(st: Student): Entry
  {
    Entry(st.id, Some(st.nombre), Some(st.correo))
  }

  /** The backend's array as the client receives it. */
  function View(s: seq<Student>): (r: seq<Entry>)
    ensures |r| == |s|
    ensures forall i :: 0 <= i < |s| ==> r[i] == Received(s[i])
  {
    if s == [] then [] else [Received(s[0])] + View(s[1..])
  }

  /** Appending the unwrapped reply of a create mirrors the backend's
      append, whether the reply is the record itself (as this backend
      sends it) or an object wrapping it in `estudiante`. */
  lemma CreateInSync(s: seq<Student>, st: Student, wrapper: Entry)
    ensures Appended(View(s), Unwrap(CreateReply(Received(st), None))) == View(s + [st])
    ensures Appended(View(s), Unwrap(CreateReply(wrapper, Some(Received(st))))) == View(s + [st])
  {
    assert View(s + [st]) == View(s) + [Received(st)];
  }

  /** Removing an id from the client's list mirrors the backend's delete. */
  lemma {:induction false} DeleteInSync(s: seq<Student>, id: int)
    ensures Removed(View(s), id) == View(Filter(s, OtherThan(id)))
  {
    if s != [] {
      DeleteInSync(s[1..], id);
      assert View(s)[1..] == View(s[1..]);
      if s[0].id != id {
        assert View([s[0]] + Filter(s[1..], OtherThan(id))) ==
               [Received(s[0])] + View(Filter(s[1..], OtherThan(id)));
      }
    }
  }

  /** What the form sends passes the backend's check, and the backend
      stores both fields exactly as sent. */
  lemma SentPayloadAccepted(nombre: string, correo: string)
    requires ValidateForm(nombre, correo).Send?
    ensures var p := ValidateForm(nombre, correo).payload;
            Truthy(Some(p.nombre)) && StringOr(Some(p.correo), "") == p.correo
  {
    StringOrEmptyIsIdentity(ValidateForm(nombre, correo).payload.correo);
  }

  /** The backend only tests falsiness: a name of spaces is accepted
      there, though the form never sends one. */
  lemma BlankNameAcceptedOnlyByBackend()
    ensures Truthy(Some(" "))
    ensures ValidateForm(" ", "").Rejected?
  {
    assert AllWhitespace(" ") by {
      assert IsWhitespace(" "[0]);
    }
  }

  /** `crearEstudiante`: check the form, send the trimmed fields, append
      the unwrapped reply. */
  method CrearEstudiante(store: RosterStore, shown: seq<Entry>, nombre: string, correo: string)
    returns (lista: seq<Entry>, error: string)
    requires store.Valid() && shown == View(store.estudiantes)
    modifies store
    ensures store.Valid() && lista == View(store.estudiantes)
    ensures AllWhitespace(nombre) ==>
      error == App.NOMBRE_OBLIGATORIO && lista == shown &&
      store.estudiantes == old(store.estudiantes) && store.idActual == old(store.idActual)
    ensures !AllWhitespace(nombre) ==>
      error == "" &&
      store.estudiantes == old(store.estudiantes) + [Student(old(store.idActual), Trim(nombre), Trim(correo))] &&
      store.idActual == old(store.idActual) + 1
  {
    var submission := ValidateForm(nombre, correo);
    if submission.Rejected? {
      return shown, submission.message;
    }
    var p := submission.payload;
    SentPayloadAccepted(nombre, correo);
    var nuevo := store.Create(Some(p.nombre), Some(p.correo));
    var est := Unwrap(CreateReply(Received(nuevo.body.student), None));
    CreateInSync(old(store.estudiantes), nuevo.body.student, est);
    lista, error := Appended(shown, est), "";
  }

  /** `eliminarEstudiante`: unless the user cancels the confirmation,
      delete on the backend and, when it answers 2xx, drop the id from the
      list. The error shown before is kept unless the delete fails: this
      flow never clears it. */
  method EliminarEstudiante(store: RosterStore, shown: seq<Entry>, errorPrevio: string, id: int, confirmar: bool)
    returns (lista: seq<Entry>, error: string)
    requires store.Valid() && shown == View(store.estudiantes)
    modifies store
    ensures store.Valid() && lista == View(store.estudiantes)
    ensures store.idActual == old(store.idActual)
    ensures !confirmar ==> lista == shown && error == errorPrevio && store.estudiantes == old(store.estudiantes)
    ensures confirmar && !Any(old(store.estudiantes), WithId(id)) ==>
      lista == shown && error == "No se pudo eliminar"
    ensures confirmar && Any(old(store.estudiantes), WithId(id)) ==>
      error == errorPrevio && lista == Removed(shown, id) && |lista| == |shown| - 1
  {
    if !confirmar {
      return shown, errorPrevio;
    }
    var res := store.Delete(id);
    if !(200 <= res.status < 300) {
      return shown, "No se pudo eliminar";
    }
    DeleteInSync(old(store.estudiantes), id);
    lista, error := Removed(shown, id), errorPrevio;
  }

  /** The load in the client's effect: fetch the list and keep it when it
      is an array. */
  method Cargar(store: RosterStore) returns (lista: seq<Entry>)
    ensures lista == View(store.estudiantes)
  {
    var res := store.List();
    lista := Loaded(ArrayBody(View(res.body.students)));
  }
}
