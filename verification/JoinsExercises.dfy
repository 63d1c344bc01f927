/**
  The join exercises on the movie database: each query is a pure function
  from the three tables to its result. A query without ORDER BY yields a
  multiset of rows (its order is unspecified); a query with ORDER BY yields
  a sequence.
 */
module JoinsExercises {
  import opened Relational
  import opened Ordering
  import opened Schema

  const SeanConnery: string := "Sean Connery"
  const HarrisonFord: string := "Harrison Ford"
  const JohnTravolta: string := "John Travolta"
  const JulieAndrews: string := "Julie Andrews"
  const ArtGarfunkel: string := "Art Garfunkel"

  // ---------------------------------------------------------------------------
  // SELECT lists

  function AllColumns(r: Credit): Credit { r }
  function Title(r: Credit): string { r.movie.title }
  function Year(r: Credit): int { r.movie.yr }
  function TitleAndName(r: Credit): (string, string) { (r.movie.title, r.actor.name) }
  function RoleName(r: Role): string { r.actor.name }
  function BilledTitle(b: Billing): string { b.movie.title }
  function TitleAndOtherName(p: CoCredit): (string, string) { (p.subject.movie.title, p.other.actor.name) }
  function OtherName(p: CoCredit): string { p.other.actor.name }

  // ---------------------------------------------------------------------------
  // WHERE and HAVING conditions

  predicate ByConnery(r: Credit) { r.actor.name == SeanConnery }
  predicate ByFord(r: Credit) { r.actor.name == HarrisonFord }
  predicate ByFordSupporting(r: Credit) { r.actor.name == HarrisonFord && r.casting.ord > 1 }
  predicate StarIn1962(r: Credit) { r.casting.ord == 1 && r.movie.yr == 1962 }
  predicate ByTravolta(r: Credit) { r.actor.name == JohnTravolta }
  predicate AtLeastTwo(g: (int, nat)) { g.1 >= 2 }
  predicate AndrewsWithLead(p: CoCredit) { p.subject.actor.name == JulieAndrews && p.other.casting.ord == 1 }
  predicate StarringRole(r: Role) { r.casting.ord == 1 }
  predicate AtLeastFifteen(g: (string, nat)) { g.1 >= 15 }
  predicate In1978(b: Billing) { b.movie.yr == 1978 }
  predicate GarfunkelAndOther(p: CoCredit) {
    p.subject.actor.name == ArtGarfunkel && p.other.actor.name != ArtGarfunkel
  }

  // ---------------------------------------------------------------------------
  // example_join: every column of the credits of 'Sean Connery'

  function ExampleJoin(db: Db): multiset<Credit> {
    multiset(Project(AllColumns, Select(ByConnery, Credits(db))))
  }

  lemma ExampleJoinRows(db: Db, r: Credit)
    ensures r in ExampleJoin(db) <==>
      Links(db, r.movie, r.casting, r.actor) && r.actor.name == SeanConnery
  {
    CreditsMembership(db);
    var rows := Select(ByConnery, Credits(db));
    if r in ExampleJoin(db) {
      assert r in Project(AllColumns, rows);
      var x :| x in rows && AllColumns(x) == r;
    }
    if Links(db, r.movie, r.casting, r.actor) && r.actor.name == SeanConnery {
      assert r in rows;
      assert AllColumns(r) in Project(AllColumns, rows);
    }
  }

  /** With the primary keys in force, each credit of Sean Connery occurs once per casting resolving to it. */
  lemma ExampleJoinCount(db: Db, r: Credit)
    requires PrimaryKeys(db)
    ensures ExampleJoin(db)[r] == CastingCount(db, db.castings, ByConnery, AllColumns, r)
  {
    CreditsKeyedCount(db, ByConnery, AllColumns, r);
  }

  // ---------------------------------------------------------------------------
  // ford_films: titles of the films 'Harrison Ford' appeared in

  function FordFilms(db: Db): multiset<string> {
    multiset(Project(Title, Select(ByFord, Credits(db))))
  }

  lemma FordFilmsRows(db: Db, t: string)
    ensures t in FordFilms(db) <==>
      exists m, c, a :: Links(db, m, c, a) && a.name == HarrisonFord && m.title == t
  {
    CreditsMembership(db);
    var rows := Select(ByFord, Credits(db));
    if t in FordFilms(db) {
      assert t in Project(Title, rows);
      var r :| r in rows && Title(r) == t;
      assert Links(db, r.movie, r.casting, r.actor);
    }
    if exists m, c, a :: Links(db, m, c, a) && a.name == HarrisonFord && m.title == t {
      var m, c, a :| Links(db, m, c, a) && a.name == HarrisonFord && m.title == t;
      assert Credit(m, c, a) in rows;
      assert Title(Credit(m, c, a)) in Project(Title, rows);
    }
  }

  /** With the primary keys in force, a title occurs once per casting of Harrison Ford in a movie with that title. */
  lemma FordFilmsCount(db: Db, t: string)
    requires PrimaryKeys(db)
    ensures FordFilms(db)[t] == CastingCount(db, db.castings, ByFord, Title, t)
  {
    CreditsKeyedCount(db, ByFord, Title, t);
  }

  // ---------------------------------------------------------------------------
  // ford_supporting_films: the same, restricted to billing positions after the star

  function FordSupportingFilms(db: Db): multiset<string> {
    multiset(Project(Title, Select(ByFordSupporting, Credits(db))))
  }

  lemma FordSupportingIsSubBag(db: Db)
    ensures FordSupportingFilms(db) <= FordFilms(db)
  {
    SelectProjectSubBag(ByFordSupporting, ByFord, Title, Credits(db));
  }

  lemma FordSupportingRows(db: Db, t: string)
    ensures t in FordSupportingFilms(db) <==>
      exists m, c, a :: Links(db, m, c, a) && a.name == HarrisonFord && c.ord > 1 && m.title == t
  {
    CreditsMembership(db);
    var rows := Select(ByFordSupporting, Credits(db));
    if t in FordSupportingFilms(db) {
      assert t in Project(Title, rows);
      var r :| r in rows && Title(r) == t;
      assert Links(db, r.movie, r.casting, r.actor);
    }
    if exists m, c, a :: Links(db, m, c, a) && a.name == HarrisonFord && c.ord > 1 && m.title == t {
      var m, c, a :| Links(db, m, c, a) && a.name == HarrisonFord && c.ord > 1 && m.title == t;
      assert Credit(m, c, a) in rows;
      assert Title(Credit(m, c, a)) in Project(Title, rows);
    }
  }

  lemma FordSupportingCount(db: Db, t: string)
    requires PrimaryKeys(db)
    ensures FordSupportingFilms(db)[t] == CastingCount(db, db.castings, ByFordSupporting, Title, t)
  {
    CreditsKeyedCount(db, ByFordSupporting, Title, t);
  }

  // ---------------------------------------------------------------------------
  // films_and_stars_from_sixty_two: title and star of every 1962 film

  function FilmsAndStarsFromSixtyTwo(db: Db): multiset<(string, string)> {
    multiset(Project(TitleAndName, Select(StarIn1962, Credits(db))))
  }

  lemma SixtyTwoRows(db: Db, t: string, n: string)
    ensures (t, n) in FilmsAndStarsFromSixtyTwo(db) <==>
      exists m, c, a :: Links(db, m, c, a) && c.ord == 1 && m.yr == 1962 && m.title == t && a.name == n
  {
    CreditsMembership(db);
    var rows := Select(StarIn1962, Credits(db));
    if (t, n) in FilmsAndStarsFromSixtyTwo(db) {
      assert (t, n) in Project(TitleAndName, rows);
      var r :| r in rows && TitleAndName(r) == (t, n);
      assert Links(db, r.movie, r.casting, r.actor);
    }
    if exists m, c, a :: Links(db, m, c, a) && c.ord == 1 && m.yr == 1962 && m.title == t && a.name == n {
      var m, c, a :| Links(db, m, c, a) && c.ord == 1 && m.yr == 1962 && m.title == t && a.name == n;
      assert Credit(m, c, a) in rows;
      assert TitleAndName(Credit(m, c, a)) in Project(TitleAndName, rows);
    }
  }

  /** With the primary keys in force, every starring casting in a 1962 movie yields exactly one row. */
  lemma SixtyTwoCount(db: Db, t: string, n: string)
    requires PrimaryKeys(db)
    ensures FilmsAndStarsFromSixtyTwo(db)[(t, n)] == CastingCount(db, db.castings, StarIn1962, TitleAndName, (t, n))
  {
    CreditsKeyedCount(db, StarIn1962, TitleAndName, (t, n));
  }

  // ---------------------------------------------------------------------------
  // travoltas_busiest_years: years in which 'John Travolta' made at least 2 films

  function TravoltaYearsOf(db: Db): seq<int> {
    Project(Year, Select(ByTravolta, Credits(db)))
  }

  function TravoltasBusiestYears(db: Db): (years: multiset<(int, nat)>)
    ensures forall g :: g in years ==> years[g] == 1 && g.1 >= 2
    ensures forall g, h :: g in years && h in years && g.0 == h.0 ==> g == h
  {
    var groups := GroupCount(TravoltaYearsOf(db));
    SelectDistinct(AtLeastTwo, groups);
    DistinctAsMultiset(Select(AtLeastTwo, groups));
    multiset(Select(AtLeastTwo, groups))
  }

  /**
    With the primary keys in force, a year is reported with count `n` exactly
    when `n` is the number of John Travolta's castings in movies of that year
    and that number is at least 2.
   */
  lemma TravoltaYearsCount(db: Db, y: int, n: nat)
    requires PrimaryKeys(db)
    ensures (y, n) in TravoltasBusiestYears(db) <==>
      n >= 2 && n == CastingCount(db, db.castings, ByTravolta, Year, y)
  {
    var years := TravoltaYearsOf(db);
    CreditsKeyedCount(db, ByTravolta, Year, y);
    assert multiset(years)[y] == CastingCount(db, db.castings, ByTravolta, Year, y);
    if n >= 2 && n == multiset(years)[y] {
      assert y in years;
      assert (y, n) in GroupCount(years);
    }
  }

  /** A year with fewer than two John Travolta films is not reported, whatever count is asked for. */
  lemma TravoltaQuietYearAbsent(db: Db, y: int, n: nat)
    requires PrimaryKeys(db)
    requires CastingCount(db, db.castings, ByTravolta, Year, y) < 2
    ensures (y, n) !in TravoltasBusiestYears(db)
  {
    TravoltaYearsCount(db, y, n);
  }

  // ---------------------------------------------------------------------------
  // andrews_films_and_leads: every film of 'Julie Andrews' with its star

  function AndrewsFilmsAndLeads(db: Db): multiset<(string, string)> {
    multiset(Project(TitleAndOtherName, Select(AndrewsWithLead, CoCredits(db))))
  }

  /** The credits of Julie Andrews and of a star of the same movie, as linked rows of `db`. */
  predicate AndrewsAndLead(db: Db, m: Movie, c1: Casting, a1: Actor, c2: Casting, a2: Actor) {
    && Links(db, m, c1, a1) && a1.name == JulieAndrews
    && Links(db, m, c2, a2) && c2.ord == 1
  }

  lemma AndrewsRowsSound(db: Db, t: string, n: string)
    requires (t, n) in AndrewsFilmsAndLeads(db)
    ensures exists m, c1, a1, c2, a2 :: AndrewsAndLead(db, m, c1, a1, c2, a2) && m.title == t && a2.name == n
  {
    CoCreditsMembership(db);
    var rows := Select(AndrewsWithLead, CoCredits(db));
    assert (t, n) in Project(TitleAndOtherName, rows);
    var p :| p in rows && TitleAndOtherName(p) == (t, n);
    assert AndrewsAndLead(db, p.subject.movie, p.subject.casting, p.subject.actor, p.other.casting, p.other.actor);
  }

  lemma AndrewsRowsComplete(db: Db, m: Movie, c1: Casting, a1: Actor, c2: Casting, a2: Actor)
    requires AndrewsAndLead(db, m, c1, a1, c2, a2)
    ensures (m.title, a2.name) in AndrewsFilmsAndLeads(db)
  {
    CoCreditsMembership(db);
    var rows := Select(AndrewsWithLead, CoCredits(db));
    var p := CoCredit(Credit(m, c1, a1), Credit(m, c2, a2));
    assert p in rows;
    assert TitleAndOtherName(p) in Project(TitleAndOtherName, rows);
  }

  /**
    A (title, name) row is listed exactly when Julie Andrews is cast in a
    movie with that title and an actor with that name holds its starring role.
   */
  lemma AndrewsRows(db: Db, t: string, n: string)
    ensures (t, n) in AndrewsFilmsAndLeads(db) <==>
      exists m, c1, a1, c2, a2 :: AndrewsAndLead(db, m, c1, a1, c2, a2) && m.title == t && a2.name == n
  {
    if (t, n) in AndrewsFilmsAndLeads(db) {
      AndrewsRowsSound(db, t, n);
    }
    if exists m, c1, a1, c2, a2 :: AndrewsAndLead(db, m, c1, a1, c2, a2) && m.title == t && a2.name == n {
      var m, c1, a1, c2, a2 :| AndrewsAndLead(db, m, c1, a1, c2, a2) && m.title == t && a2.name == n;
      AndrewsRowsComplete(db, m, c1, a1, c2, a2);
    }
  }

  /** Julie Andrews is listed as the lead of every film in which she holds the starring role. */
  lemma AndrewsLeadsHerself(db: Db, m: Movie, c: Casting, a: Actor)
    requires Links(db, m, c, a) && a.name == JulieAndrews && c.ord == 1
    ensures (m.title, JulieAndrews) in AndrewsFilmsAndLeads(db)
  {
    AndrewsRowsComplete(db, m, c, a, c, a);
  }

  // ---------------------------------------------------------------------------
  // prolific_actors: names with at least 15 starring roles, alphabetically

  /** The number of castings in `castings` in which actor `id` is billed first. */
  function StarringCount(castings: seq<Casting>, id: int): nat {
    if castings == [] then 0
    else (if castings[0].actorId == id && castings[0].ord == 1 then 1 else 0) + StarringCount(castings[1..], id)
  }

  /** The starring roles held together by the actors in `actors` named `name`. */
  function StarringRolesOfName(actors: seq<Actor>, castings: seq<Casting>, name: string): nat {
    if actors == [] then 0
    else
      (if actors[0].name == name then StarringCount(castings, actors[0].id) else 0)
      + StarringRolesOfName(actors[1..], castings, name)
  }

  function StarNamesOf(db: Db): seq<string> {
    Project(RoleName, Select(StarringRole, Roles(db)))
  }

  function ProlificActors(db: Db): (names: seq<string>)
    ensures Distinct(names)
    ensures StrictlyAscending(LexLess, names)
  {
    var groups := GroupCount(StarNamesOf(db));
    var kept := Select(AtLeastFifteen, groups);
    SelectDistinct(AtLeastFifteen, groups);
    KeysDistinct(kept);
    LexLessIsStrictTotalOrder();
    SortDistinct(LexLess, Project(GroupKey, kept));
    Sort(LexLess, Project(GroupKey, kept))
  }

  lemma {:induction false} StarNamesOfActor(a: Actor, castings: seq<Casting>, name: string)
    ensures multiset(Project(RoleName, Select(StarringRole, RolesOfActor(a, castings))))[name]
         == if a.name == name then StarringCount(castings, a.id) else 0
  {
    if castings != [] {
      var head := if castings[0].actorId == a.id then [Role(a, castings[0])] else [];
      assert RolesOfActor(a, castings) == head + RolesOfActor(a, castings[1..]);
      SelectProjectAppendCount(StarringRole, RoleName, head, RolesOfActor(a, castings[1..]), name);
      StarNamesOfActor(a, castings[1..], name);
    }
  }

  lemma {:induction false} StarNamesFor(actors: seq<Actor>, castings: seq<Casting>, name: string)
    ensures multiset(Project(RoleName, Select(StarringRole, RolesFor(actors, castings))))[name]
         == StarringRolesOfName(actors, castings, name)
  {
    if actors != [] {
      assert RolesFor(actors, castings) == RolesOfActor(actors[0], castings) + RolesFor(actors[1..], castings);
      SelectProjectAppendCount(StarringRole, RoleName, RolesOfActor(actors[0], castings), RolesFor(actors[1..], castings), name);
      StarNamesOfActor(actors[0], castings, name);
      StarNamesFor(actors[1..], castings, name);
    }
  }

  /** Grouping by name counts, for each name, the starring roles of all actors carrying it. */
  lemma StarNamesCount(db: Db, name: string)
    ensures multiset(StarNamesOf(db))[name] == StarringRolesOfName(db.actors, db.castings, name)
  {
    StarNamesFor(db.actors, db.castings, name);
  }

  /**
    A name is listed exactly when the actors carrying it hold at least 15
    starring roles between them; 15 itself is enough.
   */
  lemma ProlificMembers(db: Db, name: string)
    ensures name in ProlificActors(db) <==> StarringRolesOfName(db.actors, db.castings, name) >= 15
  {
    var leads := StarNamesOf(db);
    var groups := GroupCount(leads);
    var kept := Select(AtLeastFifteen, groups);
    var keys := Project(GroupKey, kept);
    StarNamesCount(db, name);
    var sorted := Sort(LexLess, keys);
    assert ProlificActors(db) == sorted;
    assert name in sorted <==> name in multiset(sorted);
    assert name in keys <==> name in multiset(keys);
    if name in keys {
      var g :| g in kept && GroupKey(g) == name;
    }
    if multiset(leads)[name] >= 15 {
      var g := (name, multiset(leads)[name]);
      assert g in groups;
      assert g in kept;
      assert GroupKey(g) in keys;
    }
  }

  // ---------------------------------------------------------------------------
  // films_by_cast_size: 1978 titles by cast size (descending), then title

  /** ORDER BY COUNT(*) DESC, title: larger casts first, ties broken by ascending title. */
  predicate CastSizeBefore(g: (string, nat), h: (string, nat)) {
    g.1 > h.1 || (g.1 == h.1 && LexLess(g.0, h.0))
  }

  lemma CastSizeBeforeIsStrictTotalOrder()
    ensures StrictTotalOrder(CastSizeBefore)
  {
    LexLessIsStrictTotalOrder();
  }

  /** The number of castings in `castings` of movie `id`. */
  function CastSize(castings: seq<Casting>, id: int): nat {
    if castings == [] then 0
    else (if castings[0].movieId == id then 1 else 0) + CastSize(castings[1..], id)
  }

  /** The castings of all 1978 movies in `movies` titled `title`. */
  function CastSizeOf1978Title(movies: seq<Movie>, castings: seq<Casting>, title: string): nat {
    if movies == [] then 0
    else
      (if movies[0].yr == 1978 && movies[0].title == title then CastSize(castings, movies[0].id) else 0)
      + CastSizeOf1978Title(movies[1..], castings, title)
  }

  function Titles1978Of(db: Db): seq<string> {
    Project(BilledTitle, Select(In1978, Billings(db)))
  }

  function FilmsByCastSize(db: Db): (rows: seq<(string, nat)>)
    ensures StrictlyAscending(CastSizeBefore, rows)
    ensures forall i, j :: 0 <= i < j < |rows| ==> rows[i].0 != rows[j].0
  {
    var groups := GroupCount(Titles1978Of(db));
    CastSizeBeforeIsStrictTotalOrder();
    SortDistinct(CastSizeBefore, groups);
    var rows := Sort(CastSizeBefore, groups);
    assert forall i, j :: 0 <= i < j < |rows| ==> rows[i].0 != rows[j].0 by {
      forall i, j | 0 <= i < j < |rows|
        ensures rows[i].0 != rows[j].0
      {
        assert rows[i] in multiset(groups) && rows[j] in multiset(groups);
      }
    }
    rows
  }

  lemma {:induction false} TitlesOfMovie(m: Movie, castings: seq<Casting>, title: string)
    ensures multiset(Project(BilledTitle, Select(In1978, BillingsOfMovie(m, castings))))[title]
         == if m.yr == 1978 && m.title == title then CastSize(castings, m.id) else 0
  {
    if castings != [] {
      var head := if castings[0].movieId == m.id then [Billing(m, castings[0])] else [];
      assert BillingsOfMovie(m, castings) == head + BillingsOfMovie(m, castings[1..]);
      SelectProjectAppendCount(In1978, BilledTitle, head, BillingsOfMovie(m, castings[1..]), title);
      TitlesOfMovie(m, castings[1..], title);
    }
  }

  lemma {:induction false} TitlesFor(movies: seq<Movie>, castings: seq<Casting>, title: string)
    ensures multiset(Project(BilledTitle, Select(In1978, BillingsFor(movies, castings))))[title]
         == CastSizeOf1978Title(movies, castings, title)
  {
    if movies != [] {
      assert BillingsFor(movies, castings) == BillingsOfMovie(movies[0], castings) + BillingsFor(movies[1..], castings);
      SelectProjectAppendCount(In1978, BilledTitle, BillingsOfMovie(movies[0], castings), BillingsFor(movies[1..], castings), title);
      TitlesOfMovie(movies[0], castings, title);
      TitlesFor(movies[1..], castings, title);
    }
  }

  /** Grouping by title counts the castings of every 1978 movie carrying that title. */
  lemma Titles1978Count(db: Db, title: string)
    ensures multiset(Titles1978Of(db))[title] == CastSizeOf1978Title(db.movies, db.castings, title)
  {
    TitlesFor(db.movies, db.castings, title);
  }

  /**
    A (title, count) row is listed exactly when the 1978 movies carrying that
    title have `n` castings between them and `n` is not zero.
   */
  lemma FilmsByCastSizeRows(db: Db, t: string, n: nat)
    ensures (t, n) in FilmsByCastSize(db) <==>
      n >= 1 && n == CastSizeOf1978Title(db.movies, db.castings, t)
  {
    var titles := Titles1978Of(db);
    var groups := GroupCount(titles);
    Titles1978Count(db, t);
    CastSizeBeforeIsStrictTotalOrder();
    var sorted := Sort(CastSizeBefore, groups);
    assert FilmsByCastSize(db) == sorted;
    assert (t, n) in sorted <==> (t, n) in multiset(sorted);
    assert (t, n) in groups <==> (t, n) in multiset(groups);
    if n >= 1 && n == multiset(titles)[t] {
      assert t in titles;
    }
  }

  lemma {:induction false} CastSizeOf1978TitleWitness(movies: seq<Movie>, castings: seq<Casting>, title: string)
    requires CastSizeOf1978Title(movies, castings, title) > 0
    ensures exists m :: m in movies && m.yr == 1978 && m.title == title
  {
    if movies[0].yr == 1978 && movies[0].title == title {
      assert movies[0] in movies;
    } else {
      CastSizeOf1978TitleWitness(movies[1..], castings, title);
      var m :| m in movies[1..] && m.yr == 1978 && m.title == title;
      assert m in movies;
    }
  }

  /** Only titles of 1978 movies are listed. */
  lemma FilmsByCastSizeFrom1978(db: Db, t: string, n: nat)
    requires (t, n) in FilmsByCastSize(db)
    ensures exists m :: m in db.movies && m.yr == 1978 && m.title == t
  {
    FilmsByCastSizeRows(db, t, n);
    CastSizeOf1978TitleWitness(db.movies, db.castings, t);
  }

  /**
    The listing order is exactly the ORDER BY order: a row precedes another
    if and only if it has the larger cast, or the same cast and the smaller title.
   */
  lemma FilmsByCastSizeOrder(db: Db)
    ensures var rows := FilmsByCastSize(db);
      forall i, j :: 0 <= i < |rows| && 0 <= j < |rows| ==> (i < j <==> CastSizeBefore(rows[i], rows[j]))
  {
    var rows := FilmsByCastSize(db);
    forall i, j | 0 <= i < |rows| && 0 <= j < |rows|
      ensures i < j <==> CastSizeBefore(rows[i], rows[j])
    {
      CastSizeIndexOrder(rows, i, j);
    }
  }

  lemma CastSizeIndexOrder(rows: seq<(string, nat)>, i: int, j: int)
    requires StrictlyAscending(CastSizeBefore, rows)
    requires 0 <= i < |rows| && 0 <= j < |rows|
    ensures i < j <==> CastSizeBefore(rows[i], rows[j])
  {
    LexLessIrreflexive(rows[i].0);
    if j < i {
      assert CastSizeBefore(rows[j], rows[i]);
      if rows[i].1 == rows[j].1 && LexLess(rows[i].0, rows[j].0) {
        LexLessTransitive(rows[i].0, rows[j].0, rows[i].0);
      }
    }
  }

  // ---------------------------------------------------------------------------
  // colleagues_of_garfunkel: distinct names of everyone cast alongside 'Art Garfunkel'

  function ColleaguesOfGarfunkel(db: Db): (names: multiset<string>)
    ensures ArtGarfunkel !in names
    ensures forall n :: names[n] <= 1
  {
    var others := Project(OtherName, Select(GarfunkelAndOther, CoCredits(db)));
    assert ArtGarfunkel !in others;
    DistinctAsMultiset(Dedup(others));
    multiset(Dedup(others))
  }

  /** The credits of Art Garfunkel and of another actor in the same movie, as linked rows of `db`. */
  predicate GarfunkelAndColleague(db: Db, m: Movie, c1: Casting, a1: Actor, c2: Casting, a2: Actor) {
    && Links(db, m, c1, a1) && a1.name == ArtGarfunkel
    && Links(db, m, c2, a2) && a2.name != ArtGarfunkel
  }

  lemma ColleaguesRowsSound(db: Db, n: string)
    requires n in ColleaguesOfGarfunkel(db)
    ensures exists m, c1, a1, c2, a2 :: GarfunkelAndColleague(db, m, c1, a1, c2, a2) && a2.name == n
  {
    CoCreditsMembership(db);
    var rows := Select(GarfunkelAndOther, CoCredits(db));
    var others := Project(OtherName, rows);
    assert n in Dedup(others);
    var p :| p in rows && OtherName(p) == n;
    assert GarfunkelAndColleague(db, p.subject.movie, p.subject.casting, p.subject.actor, p.other.casting, p.other.actor);
  }

  lemma ColleaguesRowsComplete(db: Db, m: Movie, c1: Casting, a1: Actor, c2: Casting, a2: Actor)
    requires GarfunkelAndColleague(db, m, c1, a1, c2, a2)
    ensures a2.name in ColleaguesOfGarfunkel(db)
  {
    CoCreditsMembership(db);
    var rows := Select(GarfunkelAndOther, CoCredits(db));
    var others := Project(OtherName, rows);
    var p := CoCredit(Credit(m, c1, a1), Credit(m, c2, a2));
    assert p in rows;
    assert OtherName(p) in others;
    assert a2.name in Dedup(others);
  }

  /**
    A name is listed exactly when an actor carrying it, other than one named
    'Art Garfunkel', is cast in a movie in which an actor named 'Art Garfunkel' is cast.
   */
  lemma ColleaguesRows(db: Db, n: string)
    ensures n in ColleaguesOfGarfunkel(db) <==>
      exists m, c1, a1, c2, a2 :: GarfunkelAndColleague(db, m, c1, a1, c2, a2) && a2.name == n
  {
    if n in ColleaguesOfGarfunkel(db) {
      ColleaguesRowsSound(db, n);
    }
    if exists m, c1, a1, c2, a2 :: GarfunkelAndColleague(db, m, c1, a1, c2, a2) && a2.name == n {
      var m, c1, a1, c2, a2 :| GarfunkelAndColleague(db, m, c1, a1, c2, a2) && a2.name == n;
      ColleaguesRowsComplete(db, m, c1, a1, c2, a2);
    }
  }
}
