/** Voice onboarding: the session remembers the recognised name, and the name
    is registered once in the `usuarios` table, keyed by its lower-case form. */
module Onboarding {

  datatype Option<T> = None | Some(value: T)

  /** One row of the `usuarios` table. */
  datatype Usuario = Usuario(usuarioId: string, nombre: string, email: Option<string>)

  /** Where the session stands: no name yet, or a recognised user. */
  datatype Phase = NoUser | Onboarded(nombre: string)

  /** An upper-case letter that `LowerChar` maps down: ASCII A-Z and the
      Latin-1 capitals À-Þ other than the multiplication sign. */
  predicate IsUpper(c: char)
  {
    'A' <= c <= 'Z' || ('À' <= c <= 'Þ' && c != '×')
  }

  /** The lower-case form of one character. */
  function LowerChar(c: char): (d: char)
    ensures IsUpper(c) ==> d as int == c as int + 32
    ensures !IsUpper(c) ==> d == c
    ensures !IsUpper(d)
  {
    if IsUpper(c) then (c as int + 32) as char else c
  }

  /** `str.lower()`, character by character. */
  function Lower(s: string): (r: string)
    ensures |r| == |s|
    ensures forall i :: 0 <= i < |r| ==> !IsUpper(r[i])
    ensures forall i :: 0 <= i < |s| && !IsUpper(s[i]) ==> r[i] == s[i]
    ensures forall i :: 0 <= i < |s| && IsUpper(s[i]) ==> r[i] as int == s[i] as int + 32
  {
    seq(|s|, i requires 0 <= i < |s| => LowerChar(s[i]))
  }

  /** Two characters that are the same letter up to case. */
  predicate SameIgnoringCase(a: char, b: char)
  {
    a == b || (IsUpper(a) && b as int == a as int + 32) || (IsUpper(b) && a as int == b as int + 32)
  }

  /** Two names get the same `usuario_id` exactly when they spell the same
      letters up to case, so "Ana", "ANA" and "ana" are one user. */
  lemma SameKeyIgnoringCase(s: string, t: string)
    ensures Lower(s) == Lower(t) <==>
            |s| == |t| && forall i :: 0 <= i < |s| ==> SameIgnoringCase(s[i], t[i])
  {
    if |s| == |t| && forall i :: 0 <= i < |s| ==> SameIgnoringCase(s[i], t[i]) {
      assert forall i :: 0 <= i < |s| ==> Lower(s)[i] == Lower(t)[i];
    }
    if Lower(s) == Lower(t) {
      forall i | 0 <= i < |s|
        ensures SameIgnoringCase(s[i], t[i])
      {
        assert Lower(s)[i] == Lower(t)[i];
      }
    }
  }

  /** Lowering a name that is already lower-case changes nothing, so a
      registry key is its own key. */
  lemma LowerIdempotent(s: string)
    ensures Lower(Lower(s)) == Lower(s)
    ensures forall i :: 0 <= i < |s| ==> !IsUpper(Lower(s)[i])
  {
  }

  /** The row `insertar_usuario` writes for a recognised name: the id is the
      lower-case name and no e-mail is given. */
  function NewUser(nombre: string): (u: Usuario)
    ensures u.usuarioId == Lower(nombre) && u.nombre == nombre && u.email == None
  {
    Usuario(Lower(nombre), nombre, None)
  }

  /** `INSERT ... ON CONFLICT (usuario_id) DO NOTHING` on the table's rows. */
  function InsertIfAbsent(users: map<string, Usuario>, u: Usuario): (r: map<string, Usuario>)
    ensures u.usuarioId in r
    ensures r[u.usuarioId] == if u.usuarioId in users then users[u.usuarioId] else u
    ensures forall k :: k in users ==> k in r && r[k] == users[k]
    ensures forall k :: k in r ==> k in users || k == u.usuarioId
  {
    if u.usuarioId in users then users else users[u.usuarioId := u]
  }

  /** A second insert with the same id does nothing: one row, the first write. */
  lemma InsertTwiceKeepsFirst(users: map<string, Usuario>, first: Usuario, second: Usuario)
    requires first.usuarioId == second.usuarioId
    ensures InsertIfAbsent(InsertIfAbsent(users, first), second) == InsertIfAbsent(users, first)
    ensures |InsertIfAbsent(users, first)| == if first.usuarioId in users then |users| else |users| + 1
  {
  }

  /** The rows after a series of onboardings, one name after the other. */
  function Registrations(users: map<string, Usuario>, nombres: seq<string>): (r: map<string, Usuario>)
    ensures users.Keys <= r.Keys
    ensures forall i :: 0 <= i < |nombres| ==> Lower(nombres[i]) in r
    ensures forall k :: k in r ==> k in users || exists i :: 0 <= i < |nombres| && Lower(nombres[i]) == k
    decreases |nombres|
  {
    if nombres == [] then users
    else Registrations(InsertIfAbsent(users, NewUser(nombres[0])), nombres[1..])
  }

  /** A row, once written, survives every later onboarding unchanged. */
  lemma {:induction false} RegistrationsKeep(users: map<string, Usuario>, nombres: seq<string>, k: string)
    requires k in users
    ensures k in Registrations(users, nombres)
    ensures Registrations(users, nombres)[k] == users[k]
    decreases |nombres|
  {
    if nombres != [] {
      RegistrationsKeep(InsertIfAbsent(users, NewUser(nombres[0])), nombres[1..], k);
    }
  }

  /** The first name to arrive under a new key is the one the table keeps,
      whatever other spellings of it (see `SameKeyIgnoringCase`) arrive later. */
  lemma {:induction false} FirstRegistrationWins(users: map<string, Usuario>, nombres: seq<string>, i: nat)
    requires i < |nombres|
    requires Lower(nombres[i]) !in users
    requires forall j :: 0 <= j < i ==> Lower(nombres[j]) != Lower(nombres[i])
    ensures Lower(nombres[i]) in Registrations(users, nombres)
    ensures Registrations(users, nombres)[Lower(nombres[i])] == NewUser(nombres[i])
    decreases |nombres|
  {
    var next := InsertIfAbsent(users, NewUser(nombres[0]));
    if i == 0 {
      RegistrationsKeep(next, nombres[1..], Lower(nombres[0]));
    } else {
      FirstRegistrationWins(next, nombres[1..], i - 1);
    }
  }

  /** Whether pressing the start button onboards the user: only while no name
      is known, and only for a recognised, non-empty name (`if nombre:`). */
  predicate Accepts(current: Option<string>, recognised: Option<string>)
    ensures current.Some? ==> !Accepts(current, recognised)
    ensures recognised.None? || recognised == Some("") ==> !Accepts(current, recognised)
    ensures current.None? && recognised.Some? && |recognised.value| > 0 ==> Accepts(current, recognised)
  {
    current.None? && recognised.Some? && recognised.value != ""
  }

  /** The `usuarios` table as seen through one database connection. */
  class Registro {
    var usuarios: map<string, Usuario>

    /** Every row sits under its own id. */
    ghost predicate Valid()
      reads this
    {
      forall id :: id in usuarios ==> usuarios[id].usuarioId == id
    }

    constructor (rows: map<string, Usuario>)
      requires forall id :: id in rows ==> rows[id].usuarioId == id
      ensures Valid() && usuarios == rows
    {
      usuarios := rows;
    }

    /** `insertar_usuario`: adds the row unless its id is already taken. */
    method InsertarUsuario(usuarioId: string, nombre: string, email: Option<string>)
      requires Valid()
      modifies this
      ensures Valid()
      ensures usuarios == InsertIfAbsent(old(usuarios), Usuario(usuarioId, nombre, email))
    {
      if usuarioId !in usuarios {
        usuarios := usuarios[usuarioId := Usuario(usuarioId, nombre, email)];
      }
    }
  }

  /** The per-session state the page keeps between interactions. */
  class Session {
    var nombreUsuario: Option<string>

    constructor ()
      ensures nombreUsuario == None
    {
      nombreUsuario := None;
    }

    /** The onboarding phase the session is in. */
    function CurrentPhase(): (p: Phase)
      reads this
      ensures p.NoUser? <==> nombreUsuario.None?
      ensures nombreUsuario.Some? ==> p == Onboarded(nombreUsuario.value)
    {
      if nombreUsuario.Some? then Onboarded(nombreUsuario.value) else NoUser
    }

    /** The start button: `recognised` is what speech recognition returned,
        `conn` the database connection, null when connecting failed. A
        recognised name is stored in the session and registered under its
        lower-case form; anything else changes neither the session nor the
        table, and a session that already has a name ignores the button. */
    method PressStart(recognised: Option<string>, conn: Registro?)
      requires conn != null ==> conn.Valid()
      modifies this, conn
      ensures conn != null ==> conn.Valid()
      ensures nombreUsuario == if Accepts(old(nombreUsuario), recognised) then recognised else old(nombreUsuario)
      ensures conn != null ==>
                conn.usuarios == if Accepts(old(nombreUsuario), recognised)
                                 then InsertIfAbsent(old(conn.usuarios), NewUser(recognised.value))
                                 else old(conn.usuarios)
      ensures conn != null && Accepts(old(nombreUsuario), recognised) ==>
                Lower(recognised.value) in conn.usuarios &&
                conn.usuarios[Lower(recognised.value)].usuarioId == Lower(recognised.value)
    {
      if nombreUsuario.None? {
        if recognised.Some? && recognised.value != "" {
          var nombre := recognised.value;
          nombreUsuario := Some(nombre);
          if conn != null {
            conn.InsertarUsuario(Lower(nombre), nombre, None);
          }
        }
      }
    }
  }

  /** A failed recognition leaves a fresh session without a user and the
      table untouched; a later success onboards the user, and once onboarded
      the session keeps its name. */
  method OnboardingScenario(rows: map<string, Usuario>, nombre: string)
    requires forall id :: id in rows ==> rows[id].usuarioId == id
    requires nombre != ""
  {
    var db := new Registro(rows);
    var session := new Session();
    session.PressStart(None, db);
    assert session.CurrentPhase() == NoUser && db.usuarios == rows;
    session.PressStart(Some(nombre), db);
    assert session.CurrentPhase() == Onboarded(nombre);
    assert Lower(nombre) in db.usuarios;
    var after := db.usuarios;
    session.PressStart(Some("otro"), db);
    assert session.CurrentPhase() == Onboarded(nombre) && db.usuarios == after;
  }
}
