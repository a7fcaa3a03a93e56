/** The student roster the backend keeps in memory, and the HTTP replies
    its list, create and delete handlers give. */
module Roster {
  import opened JsValues
  import opened JsArray

  /** A stored record: `{ id, nombre, correo }`. */
  datatype Student = Student(id: int, nombre: string, correo: string)

  /** The JSON body of a reply. */
  datatype Body =
    | StudentJson(student: Student)
    | ListJson(students: seq<Student>)
    | ErrorJson(error: string)
    | OkJson

  datatype Reply = Reply(status: nat, body: Body)

  const HTTP_OK: nat := 200
  const HTTP_CREATED: nat := 201
  const HTTP_BAD_REQUEST: nat := 400
  const HTTP_NOT_FOUND: nat := 404

  const NOMBRE_OBLIGATORIO := "El nombre es obligatorio"
  const NO_ENCONTRADO := "Estudiante no encontrado"

  /** The callback of `.some(e => e.id === id)`. */
  function WithId(id: int): Student -> bool
  {
    (e: Student) => e.id == id
  }

  /** The callback of `.filter(e => e.id !== id)`. */
  function OtherThan(id: int): Student -> bool
  {
    (e: Student) => e.id != id
  }

  /** Ids grow strictly along the array (so no two records share one). */
  predicate IdsIncreasing(s: seq<Student>)
  {
    forall i, j :: 0 <= i < j < |s| ==> s[i].id < s[j].id
  }

  /** No record other than the `k`-th has the id of record `k`. */
  predicate UniqueAt(s: seq<Student>, k: nat)
    requires k < |s|
  {
    forall i :: 0 <= i < |s| && i != k ==> s[i].id != s[k].id
  }

  /** Increasing ids are distinct ids. */
  lemma IncreasingIdsUnique(s: seq<Student>, k: nat)
    requires IdsIncreasing(s) && k < |s|
    ensures UniqueAt(s, k)
  {
    forall i | 0 <= i < |s| && i != k ensures s[i].id != s[k].id {
      if i < k {
        assert s[i].id < s[k].id;
      } else {
        assert s[k].id < s[i].id;
      }
    }
  }

  /** The first id of an increasing array is below every later one. */
  lemma HeadBelowTail(s: seq<Student>, x: Student)
    requires IdsIncreasing(s) && s != [] && x in s[1..]
    ensures s[0].id < x.id
  {
    var k :| 0 <= k < |s[1..]| && s[1..][k] == x;
    assert s[k + 1] == x;
  }

  /** Putting a record in front of an increasing array whose ids all
      exceed its own keeps the ids increasing. */
  lemma ConsIncreasing(a: Student, r: seq<Student>)
    requires IdsIncreasing(r)
    requires forall x :: x in r ==> a.id < x.id
    ensures IdsIncreasing([a] + r)
  {
    var t := [a] + r;
    forall i, j | 0 <= i < j < |t| ensures t[i].id < t[j].id {
      assert t[j] == r[j - 1];
      if i > 0 {
        assert t[i] == r[i - 1];
      } else {
        assert r[j - 1] in r;
      }
    }
  }

  /** Dropping records never breaks the order of the ids. */
  lemma {:induction false} FilterKeepsIdsIncreasing(s: seq<Student>, keep: Student -> bool)
    requires IdsIncreasing(s)
    ensures IdsIncreasing(Filter(s, keep))
  {
    if s != [] {
      var rest := Filter(s[1..], keep);
      assert IdsIncreasing(s[1..]) by {
        forall i, j | 0 <= i < j < |s[1..]| ensures s[1..][i].id < s[1..][j].id {
          assert s[1..][i] == s[i + 1] && s[1..][j] == s[j + 1];
        }
      }
      FilterKeepsIdsIncreasing(s[1..], keep);
      if keep(s[0]) {
        forall x | x in rest ensures s[0].id < x.id {
          HeadBelowTail(s, x);
        }
        ConsIncreasing(s[0], rest);
      }
    }
  }

  /** Deleting the id of record `k`, which no other record has, removes
      that record and only it. */
  lemma DeleteRemovesExactlyOne(s: seq<Student>, k: nat)
    requires k < |s| && UniqueAt(s, k)
    ensures Filter(s, OtherThan(s[k].id)) == s[..k] + s[k + 1..]
  {
    FilterDropsOne(s, OtherThan(s[k].id), k);
  }

  /** A successful delete shortens the roster by exactly one record. */
  lemma DeleteShrinksByOne(s: seq<Student>, id: int)
    requires IdsIncreasing(s) && Any(s, WithId(id))
    ensures |Filter(s, OtherThan(id))| == |s| - 1
  {
    var k :| 0 <= k < |s| && WithId(id)(s[k]);
    IncreasingIdsUnique(s, k);
    DeleteRemovesExactlyOne(s, k);
  }

  /** After a delete no record carries the deleted id, so deleting it
      again finds nothing. */
  lemma DeleteLeavesNoMatch(s: seq<Student>, id: int)
    ensures !Any(Filter(s, OtherThan(id)), WithId(id))
  {
    var r := Filter(s, OtherThan(id));
    forall i | 0 <= i < |r| ensures !WithId(id)(r[i]) {
      assert r[i] in r;
    }
  }

  /** The backend's module-level state: the array `estudiantes` and the
      counter `idActual`. `Issued` records every id ever handed out. */
  class RosterStore {
    var estudiantes: seq<Student>
    var idActual: nat
    ghost var Issued: set<int>

    /** Ids are strictly increasing along the array, every present id was
        issued, and every issued id lies in `[1, idActual)`. */
    ghost predicate Valid()
      reads this
      ensures Valid() ==> forall i :: 0 <= i < |estudiantes| ==> 1 <= estudiantes[i].id < idActual
    {
      1 <= idActual &&
      IdsIncreasing(estudiantes) &&
      (forall i :: 0 <= i < |estudiantes| ==> estudiantes[i].id in Issued) &&
      (forall n :: n in Issued ==> 1 <= n < idActual)
    }

    /** A fresh process: an empty array and the counter at 1. */
    constructor ()
      ensures Valid()
      ensures estudiantes == [] && idActual == 1 && Issued == {}
    {
      estudiantes := [];
      idActual := 1;
      Issued := {};
    }

    /** `GET /api/estudiantes`: 200 with the array as it is. */
    method List() returns (r: Reply)
      ensures r.status == HTTP_OK && r.body == ListJson(estudiantes)
    {
      r := Reply(HTTP_OK, ListJson(estudiantes));
    }

    /** `POST /api/estudiantes` with body `{ nombre, correo }`. */
    method Create(nombre: Option<string>, correo: Option<string>) returns (r: Reply)
      requires Valid()
      modifies this
      ensures Valid()
      ensures !Truthy(nombre) ==>
        r == Reply(HTTP_BAD_REQUEST, ErrorJson(NOMBRE_OBLIGATORIO)) &&
        estudiantes == old(estudiantes) && idActual == old(idActual) && Issued == old(Issued)
      ensures Truthy(nombre) ==>
        r == Reply(HTTP_CREATED, StudentJson(Student(old(idActual), nombre.value, StringOr(correo, "")))) &&
        estudiantes == old(estudiantes) + [r.body.student] &&
        idActual == old(idActual) + 1
      ensures Truthy(nombre) ==>
        old(idActual) !in old(Issued) && Issued == old(Issued) + {old(idActual)} &&
        forall i :: 0 <= i < |old(estudiantes)| ==> old(estudiantes)[i].id < old(idActual)
    {
      if !Truthy(nombre) {
        return Reply(HTTP_BAD_REQUEST, ErrorJson(NOMBRE_OBLIGATORIO));
      }
      var nuevo := Student(idActual, nombre.value, StringOr(correo, ""));
      idActual := idActual + 1;
      Issued := Issued + {nuevo.id};
      estudiantes := estudiantes + [nuevo];
      r := Reply(HTTP_CREATED, StudentJson(nuevo));
    }

    /** `DELETE /api/estudiantes/:id`, with the path id already a number. */
    method Delete(id: int) returns (r: Reply)
      requires Valid()
      modifies this
      ensures Valid()
      ensures idActual == old(idActual) && Issued == old(Issued)
      ensures !Any(old(estudiantes), WithId(id)) ==>
        r == Reply(HTTP_NOT_FOUND, ErrorJson(NO_ENCONTRADO)) && estudiantes == old(estudiantes)
      ensures Any(old(estudiantes), WithId(id)) ==>
        r == Reply(HTTP_OK, OkJson) && estudiantes == Filter(old(estudiantes), OtherThan(id)) &&
        |estudiantes| == |old(estudiantes)| - 1
    {
      var existe := Any(estudiantes, WithId(id));
      if !existe {
        return Reply(HTTP_NOT_FOUND, ErrorJson(NO_ENCONTRADO));
      }
      FilterKeepsIdsIncreasing(estudiantes, OtherThan(id));
      DeleteShrinksByOne(estudiantes, id);
      var restantes := Filter(estudiantes, OtherThan(id));
      forall i | 0 <= i < |restantes| ensures restantes[i].id in Issued {
        assert restantes[i] in estudiantes;
      }
      estudiantes := restantes;
      r := Reply(HTTP_OK, OkJson);
    }
  }

  /** The first half of a session against a fresh backend: two creates
      get ids 1 and 2 in order, and a create with an empty name is refused
      without touching the roster. */
  method SessionCreates() returns (store: RosterStore, ana: Reply, luis: Reply, sinNombre: Reply)
    ensures fresh(store) && store.Valid()
    ensures store.estudiantes == [Student(1, "Ana", "a@x.com"), Student(2, "Luis", "")]
    ensures ana == Reply(HTTP_CREATED, StudentJson(Student(1, "Ana", "a@x.com")))
    ensures luis == Reply(HTTP_CREATED, StudentJson(Student(2, "Luis", "")))
    ensures sinNombre == Reply(HTTP_BAD_REQUEST, ErrorJson(NOMBRE_OBLIGATORIO))
  {
    store := new RosterStore();
    ana := store.Create(Some("Ana"), Some("a@x.com"));
    luis := store.Create(Some("Luis"), None);
    sinNombre := store.Create(Some(""), None);
  }

  /** The whole session: after the creates, deleting id 1 succeeds, the
      list holds only Luis, and deleting id 1 again finds nothing. */
  method Session() returns (borrado: Reply, lista: Reply, otraVez: Reply)
    ensures borrado == Reply(HTTP_OK, OkJson)
    ensures lista == Reply(HTTP_OK, ListJson([Student(2, "Luis", "")]))
    ensures otraVez == Reply(HTTP_NOT_FOUND, ErrorJson(NO_ENCONTRADO))
  {
    var store, _, _, _ := SessionCreates();
    var both := store.estudiantes;
    assert Any(both, WithId(1)) by {
      assert WithId(1)(both[0]);
    }
    IncreasingIdsUnique(both, 0);
    DeleteRemovesExactlyOne(both, 0);
    DeleteLeavesNoMatch(both, 1);
    borrado := store.Delete(1);
    assert store.estudiantes == [Student(2, "Luis", "")];
    lista := store.List();
    otraVez := store.Delete(1);
  }
}
