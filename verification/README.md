# SQLZoo join exercises, modelled in Dafny

This project models the join exercises on the SQLZoo movie database: the
query methods `example_join`, `ford_films`, `ford_supporting_films`,
`films_and_stars_from_sixty_two`, `travoltas_busiest_years`,
`andrews_films_and_leads`, `prolific_actors`, `films_by_cast_size` and
`colleagues_of_garfunkel`.

Each query is a pure function from the three tables (`actors`, `castings`,
`movies`) to its result:
- A query without ORDER BY returns a `multiset` of rows, because SQL leaves
  the order of its rows unspecified.
- A query with ORDER BY returns a `seq`.

The project has four modules:

- `Relational` (Relational.dfy): the bag operators the queries are built from.
  - restriction (`Select`, for WHERE and HAVING)
  - projection (`Project`, for the SELECT list)
  - duplicate elimination (`Dedup`, for DISTINCT)
  - grouping with a row count (`GroupCount`, for GROUP BY ... COUNT)
- `Ordering` (Ordering.dfy): the ORDER BY machinery.
  - strict total orders
  - an insertion sort
  - `LexLess`, an explicit lexicographic order on strings that compares
    code points
- `Schema` (Schema.dfy): the table records and the inner joins, written as
  nested loops.
  - movies joined to castings and actors (the three-way join)
  - actors joined to castings
  - movies joined to castings
  - the five-table self-join through a shared movie
  - lemmas stating which rows each join produces, and for the three-way
    join how often
- `JoinsExercises` (JoinsExercises.dfy): the nine queries and the guarantees
  each one gives.

The five queries with neither GROUP BY nor DISTINCT are ordinary functions
with no contract of their own. The other four (`TravoltasBusiestYears`,
`ProlificActors`, `FilmsByCastSize`, `ColleaguesOfGarfunkel`) state
uniqueness, order or their threshold in their `ensures`. Separate lemmas state
the rest, relating each query to an independent description of its result in
terms of linked table rows (`Links`) or per-casting counts (`CastingCount`,
`StarringRolesOfName`, `CastSizeOf1978Title`).

The inner joins have bag semantics. A combination of a movie, a casting and an
actor that meets both join conditions appears as often as the product of the
three rows' multiplicities (`Schema.CreditsBag`). This holds whatever order the
join loops are nested in.

The schema declares `movies.id` and `actors.id` as primary keys
(`Schema.PrimaryKeys`). The per-casting count lemmas (`ExampleJoinCount`,
`FordFilmsCount`, `FordSupportingCount`, `SixtyTwoCount`,
`TravoltaYearsCount`) assume those keys. `CreditsBag`, the membership lemmas
and the grouping counts behind `prolific_actors` and `films_by_cast_size`
(`StarNamesCount`, `ProlificMembers`, `Titles1978Count`,
`FilmsByCastSizeRows`) hold without them.

In the source, the actor names and years are constants written into the
queries. The model keeps them as constants (`JoinsExercises.HarrisonFord`,
`1962`, `1978`, ...) rather than parameters.

`ford_films` has no DISTINCT. A title therefore appears once for every
casting of Harrison Ford in a movie with that title. See
`JoinsExercises.FordFilmsCount`.

## Model

| member | source | states |
|---|---|---|
| JoinsExercises.ExampleJoinRows | skeleton/lib/07_joins_exercises.rb:26-38 | A credit is in the result iff its movie, casting and actor are linked rows of the database and the actor is named 'Sean Connery'. |
| JoinsExercises.ExampleJoinCount | skeleton/lib/07_joins_exercises.rb:26-38 | Under the primary keys, each such credit occurs once per casting that resolves to it. |
| JoinsExercises.FordFilmsRows | skeleton/lib/07_joins_exercises.rb:41-54 | A title is listed iff some casting links an actor named 'Harrison Ford' to a movie with that title. |
| JoinsExercises.FordFilmsCount | skeleton/lib/07_joins_exercises.rb:41-54 | With no DISTINCT, a title's multiplicity is the number of Harrison Ford castings in movies with that title (under the primary keys). |
| JoinsExercises.FordSupportingIsSubBag | skeleton/lib/07_joins_exercises.rb:57-72 | The supporting films are a sub-multiset of all of Harrison Ford's films. |
| JoinsExercises.FordSupportingRows | skeleton/lib/07_joins_exercises.rb:57-72 | A title is listed iff some Harrison Ford casting with ord > 1 links to a movie with that title, so star roles (ord = 1) never contribute. |
| JoinsExercises.FordSupportingCount | skeleton/lib/07_joins_exercises.rb:57-72 | A title's multiplicity is the number of Harrison Ford castings with ord > 1 in movies with that title (under the primary keys). |
| JoinsExercises.SixtyTwoRows | skeleton/lib/07_joins_exercises.rb:75-88 | A (title, name) row is listed iff a casting with ord = 1 links an actor with that name to a 1962 movie with that title. |
| JoinsExercises.SixtyTwoCount | skeleton/lib/07_joins_exercises.rb:75-88 | Every starring casting in a 1962 movie yields exactly one row (under the primary keys). |
| JoinsExercises.TravoltasBusiestYears | skeleton/lib/07_joins_exercises.rb:91-109 | Each year appears at most once, and every reported count is at least 2. |
| JoinsExercises.TravoltaYearsCount | skeleton/lib/07_joins_exercises.rb:91-109 | (year, n) is reported iff n >= 2 and n is the number of John Travolta castings in movies of that year; the threshold 2 is inclusive. |
| JoinsExercises.TravoltaQuietYearAbsent | skeleton/lib/07_joins_exercises.rb:107-108 | A year with fewer than two John Travolta films is absent, whatever count is asked for. |
| JoinsExercises.AndrewsRowsSound | skeleton/lib/07_joins_exercises.rb:112-130 | Every row pairs the title of a movie Julie Andrews is cast in with the name of an actor holding ord = 1 in that same movie. |
| JoinsExercises.AndrewsRowsComplete | skeleton/lib/07_joins_exercises.rb:112-130 | Every such pair of castings produces its (title, lead name) row. |
| JoinsExercises.AndrewsRows | skeleton/lib/07_joins_exercises.rb:112-130 | Both directions together: a (title, name) row is listed exactly when such a pair of castings exists. |
| JoinsExercises.AndrewsLeadsHerself | skeleton/lib/07_joins_exercises.rb:116-129 | When Julie Andrews holds the starring role, she is listed as her own film's lead. |
| JoinsExercises.ProlificActors | skeleton/lib/07_joins_exercises.rb:133-151 | The names are strictly ascending in lexicographic order, hence free of duplicates. |
| JoinsExercises.ProlificMembers | skeleton/lib/07_joins_exercises.rb:133-151 | A name is listed iff the actors carrying it together hold at least 15 castings with ord = 1; exactly 15 is enough. |
| JoinsExercises.StarNamesCount | skeleton/lib/07_joins_exercises.rb:137-146 | Grouping the starring roles by name counts, for each name, the ord = 1 castings of every actor carrying it. |
| JoinsExercises.CastSizeBeforeIsStrictTotalOrder | skeleton/lib/07_joins_exercises.rb:168-169 | ORDER BY COUNT(*) DESC, title is a strict total order on (title, count) rows. |
| JoinsExercises.FilmsByCastSize | skeleton/lib/07_joins_exercises.rb:154-170 | Rows are strictly ordered by count descending, then by title ascending, and no title appears twice. |
| JoinsExercises.Titles1978Count | skeleton/lib/07_joins_exercises.rb:158-167 | Grouping by title counts the castings of every 1978 movie carrying that title. |
| JoinsExercises.FilmsByCastSizeRows | skeleton/lib/07_joins_exercises.rb:154-170 | (title, n) is listed iff n is the number of castings of the 1978 movies with that title and n >= 1. |
| JoinsExercises.FilmsByCastSizeFrom1978 | skeleton/lib/07_joins_exercises.rb:164-165 | Only titles of movies with yr = 1978 are listed. |
| JoinsExercises.FilmsByCastSizeOrder | skeleton/lib/07_joins_exercises.rb:168-169 | For every two positions i and j of the result, i < j iff row i has the larger count, or the same count and the lexicographically smaller title. |
| JoinsExercises.CastSizeIndexOrder | skeleton/lib/07_joins_exercises.rb:168-169 | In any sequence strictly ordered by the cast-size order, position order and the cast-size order coincide. |
| JoinsExercises.ColleaguesOfGarfunkel | skeleton/lib/07_joins_exercises.rb:173-191 | The DISTINCT result holds each name at most once and never 'Art Garfunkel'. |
| JoinsExercises.ColleaguesRowsSound | skeleton/lib/07_joins_exercises.rb:173-191 | Every listed name belongs to an actor not named 'Art Garfunkel' who is cast in a movie with a casting of an actor named 'Art Garfunkel'. |
| JoinsExercises.ColleaguesRowsComplete | skeleton/lib/07_joins_exercises.rb:173-191 | Every such co-star's name is listed. |
| JoinsExercises.ColleaguesRows | skeleton/lib/07_joins_exercises.rb:173-191 | Both directions together: a name is listed exactly when such a pair of castings exists. |
| Schema.CreditsBag | skeleton/lib/07_joins_exercises.rb:30-35 | The three-way inner join contains each linked (movie, casting, actor) combination as often as the product of the rows' multiplicities, and nothing else. |
| Schema.CreditsMembership | skeleton/lib/07_joins_exercises.rb:30-35 | A credit is a row of the three-way join iff its movie, casting and actor are rows of the database whose ids match. |
| Schema.RolesMembership | skeleton/lib/07_joins_exercises.rb:140-142 | A row of actors JOIN castings is exactly an actor and a casting of the database with matching actor id. |
| Schema.BillingsMembership | skeleton/lib/07_joins_exercises.rb:161-163 | A row of movies JOIN castings is exactly a movie and a casting of the database with matching movie id. |
| Schema.CoCreditsMembership | skeleton/lib/07_joins_exercises.rb:118-127 | A row of the five-table self-join is exactly two linked credits of the same movie. |
| Schema.MovieById | skeleton/lib/07_joins_exercises.rb:14-16 | Looking up a movie by id returns a row with that id, or nothing exactly when no row has it. |
| Schema.ActorById | skeleton/lib/07_joins_exercises.rb:3-5 | Looking up an actor by id returns a row with that id, or nothing exactly when no row has it. |
| Schema.Resolve | skeleton/lib/07_joins_exercises.rb:8-16 | A casting resolves to a linked credit exactly when both its movie and its actor exist. |
| Schema.CreditsKeyedCount | skeleton/lib/07_joins_exercises.rb:3-16 | With the primary keys of movies.id and actors.id, the projected, restricted three-way join holds one row per casting that resolves to a credit meeting the condition. |
| Relational.Select | skeleton/lib/07_joins_exercises.rb:70-71 | WHERE keeps exactly the rows meeting the condition, each with its full multiplicity, and drops every other row. |
| Relational.Project | skeleton/lib/07_joins_exercises.rb:44-45 | The SELECT list yields one output row per input row, the image of that row, so a value is present iff some input row maps to it. |
| Relational.SelectProjectSubBag | skeleton/lib/07_joins_exercises.rb:70-71 | A stronger WHERE condition keeps a sub-multiset of the projected rows. |
| Relational.GroupCount | skeleton/lib/07_joins_exercises.rb:105-108 | GROUP BY yields one group per distinct key, paired with the exact number of rows carrying that key. |
| Relational.Dedup | skeleton/lib/07_joins_exercises.rb:177 | DISTINCT keeps every value exactly once and adds none. |
| Ordering.Sort | skeleton/lib/07_joins_exercises.rb:149-150 | ORDER BY returns exactly the rows it was given, with the same multiplicities; only their order changes. |
| Ordering.SortAscending | skeleton/lib/07_joins_exercises.rb:149-150 | Sorting by a strict total order leaves the rows in ascending order. |
| Ordering.SortDistinct | skeleton/lib/07_joins_exercises.rb:149-150 | Sorting distinct rows leaves them distinct and strictly ascending. |
| Ordering.LexLessMeaning | skeleton/lib/07_joins_exercises.rb:149-150 | The string order is lexicographic: a proper prefix comes first, otherwise the first differing character decides. |
| Ordering.LexLessIsStrictTotalOrder | skeleton/lib/07_joins_exercises.rb:149-150 | The string order is irreflexive, transitive and total on distinct strings. |

## Left out

- The `execute` helper and `sqlzoo.rb` (skeleton/lib/07_joins_exercises.rb:24) are not part of this model. They are the database connection and driver, so the queries are modelled by their meaning and not run.
- The SQL text itself is not parsed. Each heredoc is modelled by the relational expression it denotes.
- The `score`, `votes` and `director_id` columns of `movies` are dropped, because no query filters, groups or orders on them. The rows of `example_join`'s `SELECT *` are modelled without them. `score` is also a float.
- `yr = '1962'` and `yr = '1978'` compare an integer column with a string literal. The implicit coercion is not modelled: `yr` is an integer compared with the integers 1962 and 1978.
- NULL values are not modelled; every column is non-null. As a result, `COUNT(title)` and `COUNT(*)` coincide.
- Database-specific collation is not modelled. ORDER BY on text uses code-point lexicographic order (`Ordering.LexLess`).
- Result order of queries without ORDER BY is not modelled. Those results are multisets.
- The composite key the schema comment declares on `castings(movie_id, actor_id)` is not assumed. Duplicate castings simply multiply rows, as the join lemmas state.
- JoinsExercises.AndrewsRows: states membership only, not the multiplicity of each (title, lead) row. With no DISTINCT, a row repeats once per pair of castings that produces it.
- JoinsExercises.ColleaguesRows: identifies colleagues by name, as the query does. Two different actors sharing a name are conflated, and an actor whose name is 'Art Garfunkel' is excluded even if they are a different person.
- The exact-count lemmas (`ExampleJoinCount`, `FordFilmsCount`, `FordSupportingCount`, `SixtyTwoCount`, `TravoltaYearsCount`) assume the primary keys on `movies.id` and `actors.id`. Without the keys, `Schema.CreditsBag` gives the general multiplicity.
