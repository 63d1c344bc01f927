/**
  The three tables of the movie database and the inner equi-joins the
  exercises run over them.

  A table is a sequence of records; the joins are nested loops that emit one
  row per combination of input rows meeting the join condition, which is the
  bag semantics of an inner join: how the loops are nested only changes the
  order of the rows, never their multiset (see `CreditsBag`).
 */
module Schema {
  import opened Relational

  datatype Option<T> = None | Some(value: T)

  /** A row of `actors`. */
  datatype Actor = Actor(id: int, name: string)

  /** A row of `castings`: actor `actorId` plays in movie `movieId` with billing position `ord` (1 = star). */
  datatype Casting = Casting(movieId: int, actorId: int, ord: int)

  /** A row of `movies`, keeping only the columns some query reads. */
  datatype Movie = Movie(id: int, title: string, yr: int)

  datatype Db = Db(actors: seq<Actor>, castings: seq<Casting>, movies: seq<Movie>)

  /** A row of `movies JOIN castings JOIN actors`. */
  datatype Credit = Credit(movie: Movie, casting: Casting, actor: Actor)

  /** A row of `actors JOIN castings`. */
  datatype Role = Role(actor: Actor, casting: Casting)

  /** A row of `movies JOIN castings`. */
  datatype Billing = Billing(movie: Movie, casting: Casting)

  /**
    A row of the self-join `actors JOIN castings JOIN movies JOIN castings JOIN actors`:
    the credit of the subject actor and a credit of another (or the same) actor in that movie.
   */
  datatype CoCredit = CoCredit(subject: Credit, other: Credit)

  /** `m`, `c` and `a` are rows of `db`, and `c` casts `a` in `m`. */
  predicate Links(db: Db, m: Movie, c: Casting, a: Actor) {
    && m in db.movies && c in db.castings && a in db.actors
    && c.movieId == m.id && c.actorId == a.id
  }

  // ---------------------------------------------------------------------------
  // The three-way join: movies joined to castings on the movie id, then to
  // actors on the actor id.

  /** The rows of the join contributed by movie `m`, casting `c` and the actors in `actors`. */
  function ActorMatches(m: Movie, c: Casting, actors: seq<Actor>): (rows: seq<Credit>)
  {
    if actors == [] then []
    else
      (if actors[0].id == c.actorId then [Credit(m, c, actors[0])] else [])
      + ActorMatches(m, c, actors[1..])
  }

  /** The rows of the join contributed by casting `c`, the movies in `movies` and the actors in `actors`. */
  function MovieMatches(movies: seq<Movie>, c: Casting, actors: seq<Actor>): (rows: seq<Credit>)
  {
    if movies == [] then []
    else
      (if movies[0].id == c.movieId then ActorMatches(movies[0], c, actors) else [])
      + MovieMatches(movies[1..], c, actors)
  }

  /** The rows of the join contributed by the castings in `castings`. */
  function CreditsFor(db: Db, castings: seq<Casting>): (rows: seq<Credit>)
  {
    if castings == [] then []
    else MovieMatches(db.movies, castings[0], db.actors) + CreditsFor(db, castings[1..])
  }

  /** The three-way join, one casting at a time. */
  function Credits(db: Db): (rows: seq<Credit>)
  {
    CreditsFor(db, db.castings)
  }

  lemma {:induction false} ActorMatchesBag(m: Movie, c: Casting, actors: seq<Actor>, r: Credit)
    ensures multiset(ActorMatches(m, c, actors))[r] ==
      if r.movie == m && r.casting == c && r.actor.id == c.actorId then multiset(actors)[r.actor] else 0
  {
    if actors != [] {
      assert actors == [actors[0]] + actors[1..];
      ActorMatchesBag(m, c, actors[1..], r);
    }
  }

  /** The first movie's rows and the rest of the movies' rows, counted separately. */
  lemma MovieMatchesSplit(movies: seq<Movie>, c: Casting, actors: seq<Actor>, r: Credit)
    requires movies != []
    ensures multiset(MovieMatches(movies, c, actors))[r] ==
      (if movies[0].id == c.movieId then multiset(ActorMatches(movies[0], c, actors))[r] else 0)
      + multiset(MovieMatches(movies[1..], c, actors))[r]
    ensures multiset(movies)[r.movie] == multiset(movies[1..])[r.movie] + if movies[0] == r.movie then 1 else 0
  {
    assert movies == [movies[0]] + movies[1..];
  }

  lemma {:induction false} MovieMatchesBag(movies: seq<Movie>, c: Casting, actors: seq<Actor>, r: Credit)
    ensures multiset(MovieMatches(movies, c, actors))[r] ==
      if r.casting == c && c.movieId == r.movie.id && c.actorId == r.actor.id
      then multiset(movies)[r.movie] * multiset(actors)[r.actor] else 0
  {
    if movies != [] {
      var joins := r.casting == c && c.movieId == r.movie.id && c.actorId == r.actor.id;
      var head := if movies[0].id == c.movieId then multiset(ActorMatches(movies[0], c, actors))[r] else 0;
      var tail := multiset(MovieMatches(movies[1..], c, actors))[r];
      MovieMatchesSplit(movies, c, actors, r);
      MovieMatchesBag(movies[1..], c, actors, r);
      ActorMatchesBag(movies[0], c, actors, r);
      BagStep(joins, movies[0] == r.movie, multiset(movies[1..])[r.movie], multiset(actors)[r.actor], head, tail);
    }
  }

  /** The first casting's rows and the rest of the castings' rows, counted separately. */
  lemma CreditsForSplit(db: Db, castings: seq<Casting>, r: Credit)
    requires castings != []
    ensures multiset(CreditsFor(db, castings))[r] ==
      multiset(MovieMatches(db.movies, castings[0], db.actors))[r] + multiset(CreditsFor(db, castings[1..]))[r]
    ensures multiset(castings)[r.casting] == multiset(castings[1..])[r.casting] + if castings[0] == r.casting then 1 else 0
  {
    assert castings == [castings[0]] + castings[1..];
  }

  lemma {:induction false} CreditsForBag(db: Db, castings: seq<Casting>, r: Credit)
    ensures multiset(CreditsFor(db, castings))[r] ==
      if r.casting.movieId == r.movie.id && r.casting.actorId == r.actor.id
      then multiset(castings)[r.casting] * (multiset(db.movies)[r.movie] * multiset(db.actors)[r.actor])
      else 0
  {
    if castings != [] {
      var joins := r.casting.movieId == r.movie.id && r.casting.actorId == r.actor.id;
      var ma := multiset(db.movies)[r.movie] * multiset(db.actors)[r.actor];
      CreditsForSplit(db, castings, r);
      CreditsForBag(db, castings[1..], r);
      MovieMatchesBag(db.movies, castings[0], db.actors, r);
      BagStep(joins, castings[0] == r.casting, multiset(castings[1..])[r.casting], ma,
        multiset(MovieMatches(db.movies, castings[0], db.actors))[r], multiset(CreditsFor(db, castings[1..]))[r]);
    }
  }

  /** One step of counting a product: `hit` adds one more copy of `a` to `k` copies. */
  lemma BagStep(joins: bool, hit: bool, k: nat, a: nat, head: nat, tail: nat)
    requires head == if joins && hit then a else 0
    requires tail == if joins then k * a else 0
    ensures head + tail == if joins then (if hit then k + 1 else k) * a else 0
  {
  }

  /**
    Bag semantics of the three-way inner join: a combination of a movie, a
    casting and an actor that meets both join conditions occurs as often as
    the product of the three rows' multiplicities, and any other combination
    does not occur. This holds whatever order the loops run in.
   */
  lemma CreditsBag(db: Db, m: Movie, c: Casting, a: Actor)
    ensures multiset(Credits(db))[Credit(m, c, a)] ==
      if c.movieId == m.id && c.actorId == a.id
      then multiset(db.movies)[m] * multiset(db.castings)[c] * multiset(db.actors)[a]
      else 0
  {
    CreditsForBag(db, db.castings, Credit(m, c, a));
    Reassociate(multiset(db.castings)[c], multiset(db.movies)[m], multiset(db.actors)[a]);
  }

  lemma Reassociate(x: nat, y: nat, z: nat)
    ensures x * (y * z) == y * x * z
  {
  }

  lemma ProductPositive(x: nat, y: nat, z: nat)
    ensures x * y * z > 0 <==> x > 0 && y > 0 && z > 0
  {
    if x > 0 && y > 0 && z > 0 {
      assert x * y >= 1;
      assert x * y * z >= 1;
    }
  }

  /** A credit is a row of the three-way join exactly when its movie, casting and actor are linked rows of `db`. */
  lemma CreditsMembership(db: Db)
    ensures forall r :: r in Credits(db) <==> Links(db, r.movie, r.casting, r.actor)
  {
    forall r: Credit
      ensures r in Credits(db) <==> Links(db, r.movie, r.casting, r.actor)
    {
      CreditsBag(db, r.movie, r.casting, r.actor);
      ProductPositive(multiset(db.movies)[r.movie], multiset(db.castings)[r.casting], multiset(db.actors)[r.actor]);
    }
  }

  lemma {:induction false} ActorMatchesMembership(m: Movie, c: Casting, actors: seq<Actor>)
    ensures forall r :: r in ActorMatches(m, c, actors) <==>
      r.movie == m && r.casting == c && r.actor in actors && r.actor.id == c.actorId
  {
    if actors != [] {
      assert actors == [actors[0]] + actors[1..];
      ActorMatchesMembership(m, c, actors[1..]);
    }
  }

  // ---------------------------------------------------------------------------
  // Primary keys: actors.id and movies.id

  predicate UniqueMovieIds(movies: seq<Movie>) {
    forall i, j :: 0 <= i < j < |movies| ==> movies[i].id != movies[j].id
  }

  predicate UniqueActorIds(actors: seq<Actor>) {
    forall i, j :: 0 <= i < j < |actors| ==> actors[i].id != actors[j].id
  }

  /** The primary keys the schema declares on `movies.id` and `actors.id` hold. */
  predicate PrimaryKeys(db: Db) {
    UniqueMovieIds(db.movies) && UniqueActorIds(db.actors)
  }

  /** The first movie with identifier `id`, if any. */
  function MovieById(movies: seq<Movie>, id: int): (r: Option<Movie>)
    ensures r.Some? ==> r.value in movies && r.value.id == id
    ensures r.None? <==> forall m :: m in movies ==> m.id != id
  {
    if movies == [] then None
    else if movies[0].id == id then Some(movies[0])
    else MovieById(movies[1..], id)
  }

  /** The first actor with identifier `id`, if any. */
  function ActorById(actors: seq<Actor>, id: int): (r: Option<Actor>)
    ensures r.Some? ==> r.value in actors && r.value.id == id
    ensures r.None? <==> forall a :: a in actors ==> a.id != id
  {
    if actors == [] then None
    else if actors[0].id == id then Some(actors[0])
    else ActorById(actors[1..], id)
  }

  /** The credit that casting `c` resolves to by looking up its movie and its actor by key. */
  function Resolve(db: Db, c: Casting): (r: Option<Credit>)
    ensures r.Some? ==> r.value.casting == c
    ensures r.Some? && c in db.castings ==> Links(db, r.value.movie, c, r.value.actor)
    ensures r.None? <==>
      (forall m :: m in db.movies ==> m.id != c.movieId) || (forall a :: a in db.actors ==> a.id != c.actorId)
  {
    match (MovieById(db.movies, c.movieId), ActorById(db.actors, c.actorId))
    case (Some(m), Some(a)) => Some(Credit(m, c, a))
    case _ => None
  }

  /** The rows of a resolution: one credit, or none. */
  function AsRows(r: Option<Credit>): seq<Credit> {
    match r
    case Some(x) => [x]
    case None => []
  }

  lemma {:induction false} ActorMatchesKeyed(m: Movie, c: Casting, actors: seq<Actor>)
    requires UniqueActorIds(actors)
    ensures ActorMatches(m, c, actors) ==
      match ActorById(actors, c.actorId)
      case Some(a) => [Credit(m, c, a)]
      case None => []
  {
    if actors != [] {
      assert UniqueActorIds(actors[1..]) by {
        forall i, j | 0 <= i < j < |actors[1..]|
          ensures actors[1..][i].id != actors[1..][j].id
        {
          assert actors[1..][i] == actors[i + 1] && actors[1..][j] == actors[j + 1];
        }
      }
      ActorMatchesKeyed(m, c, actors[1..]);
      if actors[0].id == c.actorId {
        assert ActorById(actors[1..], c.actorId).None? by {
          forall a | a in actors[1..]
            ensures a.id != c.actorId
          {
            var j :| 0 <= j < |actors[1..]| && actors[1..][j] == a;
            assert actors[j + 1] == a;
          }
        }
      }
    }
  }

  lemma {:induction false} MovieMatchesKeyed(movies: seq<Movie>, c: Casting, actors: seq<Actor>)
    requires UniqueMovieIds(movies)
    ensures MovieMatches(movies, c, actors) ==
      match MovieById(movies, c.movieId)
      case Some(m) => ActorMatches(m, c, actors)
      case None => []
  {
    if movies != [] {
      assert UniqueMovieIds(movies[1..]) by {
        forall i, j | 0 <= i < j < |movies[1..]|
          ensures movies[1..][i].id != movies[1..][j].id
        {
          assert movies[1..][i] == movies[i + 1] && movies[1..][j] == movies[j + 1];
        }
      }
      MovieMatchesKeyed(movies[1..], c, actors);
      if movies[0].id == c.movieId {
        assert MovieById(movies[1..], c.movieId).None? by {
          forall m | m in movies[1..]
            ensures m.id != c.movieId
          {
            var j :| 0 <= j < |movies[1..]| && movies[1..][j] == m;
            assert movies[j + 1] == m;
          }
        }
      }
    }
  }

  /** Under the primary keys every casting contributes exactly its resolution to the join. */
  lemma CastingRowsKeyed(db: Db, c: Casting)
    requires PrimaryKeys(db)
    ensures MovieMatches(db.movies, c, db.actors) == AsRows(Resolve(db, c))
  {
    MovieMatchesKeyed(db.movies, c, db.actors);
    match MovieById(db.movies, c.movieId)
    case Some(m) => ActorMatchesKeyed(m, c, db.actors);
    case None =>
  }

  /**
    The number of castings in `castings` whose movie and actor both exist,
    whose credit satisfies `p` and whose credit `f` maps to `y`.
   */
  function CastingCount<U(==)>(db: Db, castings: seq<Casting>, p: Credit -> bool, f: Credit -> U, y: U): nat {
    if castings == [] then 0
    else
      (match Resolve(db, castings[0])
       case Some(r) => if p(r) && f(r) == y then 1 else 0
       case None => 0)
      + CastingCount(db, castings[1..], p, f, y)
  }

  lemma {:induction false} CreditsForKeyedCount<U(!new)>(db: Db, castings: seq<Casting>, p: Credit -> bool, f: Credit -> U, y: U)
    requires PrimaryKeys(db)
    ensures multiset(Project(f, Select(p, CreditsFor(db, castings))))[y] == CastingCount(db, castings, p, f, y)
  {
    if castings != [] {
      var head := MovieMatches(db.movies, castings[0], db.actors);
      var tail := CreditsFor(db, castings[1..]);
      assert CreditsFor(db, castings) == head + tail;
      SelectAppend(p, head, tail);
      ProjectAppend(f, Select(p, head), Select(p, tail));
      var ph := Project(f, Select(p, head));
      var pt := Project(f, Select(p, tail));
      assert multiset(ph + pt)[y] == multiset(ph)[y] + multiset(pt)[y];
      CreditsForKeyedCount(db, castings[1..], p, f, y);
      CastingRowsKeyed(db, castings[0]);
      match Resolve(db, castings[0])
      case Some(r) =>
        assert head == [r];
        assert multiset(ph)[y] == if p(r) && f(r) == y then 1 else 0;
      case None =>
        assert head == [];
    }
  }

  /**
    With the primary keys in force, every casting whose movie and actor exist
    yields exactly one row of the three-way join: the multiplicity of a value
    among the projected, restricted rows is the number of castings whose
    credit passes the restriction and projects to that value.
   */
  lemma CreditsKeyedCount<U(!new)>(db: Db, p: Credit -> bool, f: Credit -> U, y: U)
    requires PrimaryKeys(db)
    ensures multiset(Project(f, Select(p, Credits(db))))[y] == CastingCount(db, db.castings, p, f, y)
  {
    CreditsForKeyedCount(db, db.castings, p, f, y);
  }

  // ---------------------------------------------------------------------------
  // Actors joined to castings on the actor id.

  function RolesOfActor(a: Actor, castings: seq<Casting>): (rows: seq<Role>)
  {
    if castings == [] then []
    else
      (if castings[0].actorId == a.id then [Role(a, castings[0])] else [])
      + RolesOfActor(a, castings[1..])
  }

  function RolesFor(actors: seq<Actor>, castings: seq<Casting>): (rows: seq<Role>)
  {
    if actors == [] then []
    else RolesOfActor(actors[0], castings) + RolesFor(actors[1..], castings)
  }

  /** The two-way join of actors and their castings, one actor at a time. */
  function Roles(db: Db): (rows: seq<Role>)
  {
    RolesFor(db.actors, db.castings)
  }

  lemma {:induction false} RolesOfActorMembership(a: Actor, castings: seq<Casting>)
    ensures forall r :: r in RolesOfActor(a, castings) <==>
      r.actor == a && r.casting in castings && r.casting.actorId == a.id
  {
    if castings != [] {
      assert castings == [castings[0]] + castings[1..];
      RolesOfActorMembership(a, castings[1..]);
    }
  }

  lemma {:induction false} RolesForMembership(actors: seq<Actor>, castings: seq<Casting>)
    ensures forall r :: r in RolesFor(actors, castings) <==>
      r.actor in actors && r.casting in castings && r.casting.actorId == r.actor.id
  {
    if actors != [] {
      assert actors == [actors[0]] + actors[1..];
      RolesOfActorMembership(actors[0], castings);
      RolesForMembership(actors[1..], castings);
    }
  }

  /** A pair is a row of `actors JOIN castings` exactly when both are rows of `db` and the casting is the actor's. */
  lemma RolesMembership(db: Db)
    ensures forall r :: r in Roles(db) <==>
      r.actor in db.actors && r.casting in db.castings && r.casting.actorId == r.actor.id
  {
    RolesForMembership(db.actors, db.castings);
  }

  // ---------------------------------------------------------------------------
  // Movies joined to castings on the movie id.

  function BillingsOfMovie(m: Movie, castings: seq<Casting>): (rows: seq<Billing>)
  {
    if castings == [] then []
    else
      (if castings[0].movieId == m.id then [Billing(m, castings[0])] else [])
      + BillingsOfMovie(m, castings[1..])
  }

  function BillingsFor(movies: seq<Movie>, castings: seq<Casting>): (rows: seq<Billing>)
  {
    if movies == [] then []
    else BillingsOfMovie(movies[0], castings) + BillingsFor(movies[1..], castings)
  }

  /** The two-way join of movies and their castings, one movie at a time. */
  function Billings(db: Db): (rows: seq<Billing>)
  {
    BillingsFor(db.movies, db.castings)
  }

  lemma {:induction false} BillingsOfMovieMembership(m: Movie, castings: seq<Casting>)
    ensures forall b :: b in BillingsOfMovie(m, castings) <==>
      b.movie == m && b.casting in castings && b.casting.movieId == m.id
  {
    if castings != [] {
      assert castings == [castings[0]] + castings[1..];
      BillingsOfMovieMembership(m, castings[1..]);
    }
  }

  lemma {:induction false} BillingsForMembership(movies: seq<Movie>, castings: seq<Casting>)
    ensures forall b :: b in BillingsFor(movies, castings) <==>
      b.movie in movies && b.casting in castings && b.casting.movieId == b.movie.id
  {
    if movies != [] {
      assert movies == [movies[0]] + movies[1..];
      BillingsOfMovieMembership(movies[0], castings);
      BillingsForMembership(movies[1..], castings);
    }
  }

  /** A pair is a row of `movies JOIN castings` exactly when both are rows of `db` and the casting is the movie's. */
  lemma BillingsMembership(db: Db)
    ensures forall b :: b in Billings(db) <==>
      b.movie in db.movies && b.casting in db.castings && b.casting.movieId == b.movie.id
  {
    BillingsForMembership(db.movies, db.castings);
  }

  // ---------------------------------------------------------------------------
  // The self-join through a shared movie: a subject actor joined to their
  // castings, each casting to its movie, and that movie to every casting of it
  // and the actor of that casting.

  /** The credits of movie `m` through the castings in `castings`. */
  function CastOf(db: Db, m: Movie, castings: seq<Casting>): (rows: seq<Credit>)
  {
    if castings == [] then []
    else
      (if castings[0].movieId == m.id then ActorMatches(m, castings[0], db.actors) else [])
      + CastOf(db, m, castings[1..])
  }

  /** Pairs every subject credit in `subjects` with every credit in the subject's movie. */
  function CoCreditsFor(db: Db, subjects: seq<Credit>): (rows: seq<CoCredit>)
  {
    if subjects == [] then []
    else
      Project((o: Credit) => CoCredit(subjects[0], o), CastOf(db, subjects[0].movie, db.castings))
      + CoCreditsFor(db, subjects[1..])
  }

  /** The five-way self-join: pairs of credits in the same movie. */
  function CoCredits(db: Db): (rows: seq<CoCredit>)
  {
    CoCreditsFor(db, Credits(db))
  }

  lemma {:induction false} CastOfMembership(db: Db, m: Movie, castings: seq<Casting>)
    ensures forall r :: r in CastOf(db, m, castings) <==>
      r.movie == m && r.casting in castings && r.casting.movieId == m.id
      && r.actor in db.actors && r.actor.id == r.casting.actorId
  {
    if castings != [] {
      assert castings == [castings[0]] + castings[1..];
      ActorMatchesMembership(m, castings[0], db.actors);
      CastOfMembership(db, m, castings[1..]);
    }
  }

  lemma {:induction false} CoCreditsForMembership(db: Db, subjects: seq<Credit>)
    ensures forall p :: p in CoCreditsFor(db, subjects) <==>
      p.subject in subjects && p.other.movie == p.subject.movie
      && p.other.casting in db.castings && p.other.casting.movieId == p.subject.movie.id
      && p.other.actor in db.actors && p.other.actor.id == p.other.casting.actorId
  {
    if subjects != [] {
      assert subjects == [subjects[0]] + subjects[1..];
      CastOfMembership(db, subjects[0].movie, db.castings);
      CoCreditsForMembership(db, subjects[1..]);
    }
  }

  /**
    A pair of credits is a row of the five-way self-join exactly when both
    are linked rows of `db` and they are credits of the same movie.
   */
  lemma CoCreditsMembership(db: Db)
    ensures forall p :: p in CoCredits(db) <==>
      && Links(db, p.subject.movie, p.subject.casting, p.subject.actor)
      && Links(db, p.other.movie, p.other.casting, p.other.actor)
      && p.other.movie == p.subject.movie
  {
    CreditsMembership(db);
    CoCreditsForMembership(db, Credits(db));
  }
}
