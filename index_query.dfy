/** The filter-query builder of the index page (`index()` in src/app.py).

    Five optional text filters (title, author, genre, year, rating) are stripped. Each one
    that is non-empty afterwards appends one constant `LIKE ?` fragment to the query text
    and one `%value%` pattern to the list of bound parameters, always in the order title,
    author, genre, year, rating. The query text is made only of constant fragments, so the
    user's values reach the database only as bound parameters.

    The fragments are reproduced exactly as the handler writes them: there is no space
    between `1=1` and the first `AND`, nor between one fragment and the next; the table is
    called `library` and the ordering column `data_read`.
 */
module IndexQuery {
  import opened Whitespace

  /** The five filters, in the order in which the handler tests them. */
  datatype Field = Title | Author | Genre | Year | Rating

  const Fields: seq<Field> := [Title, Author, Genre, Year, Rating]

  /** Position of a filter in `Fields`. */
  function Rank(f: Field): (n: nat)
    ensures n < |Fields| && Fields[n] == f
  {
    match f
    case Title => 0
    case Author => 1
    case Genre => 2
    case Year => 3
    case Rating => 4
  }

  /** The request-argument name of a filter, which is also its key in the echoed map. */
  function Key(f: Field): string {
    match f
    case Title => "title"
    case Author => "author"
    case Genre => "genre"
    case Year => "year"
    case Rating => "rating"
  }

  /** The five filter values (`request.args.get(name, "")`, so a missing argument is ""). */
  datatype FilterArgs = FilterArgs(title: string, author: string, genre: string, year: string, rating: string)

  function Value(a: FilterArgs, f: Field): string {
    match f
    case Title => a.title
    case Author => a.author
    case Genre => a.genre
    case Year => a.year
    case Rating => a.rating
  }

  /** The request arguments `a` with filter `f` left out (so `""`). */
  function Cleared(a: FilterArgs, f: Field): FilterArgs {
    match f
    case Title => a.(title := "")
    case Author => a.(author := "")
    case Genre => a.(genre := "")
    case Year => a.(year := "")
    case Rating => a.(rating := "")
  }

  /** The query text the handler starts from and the text it always appends last. */
  const QueryHead: string := "SELECT * FROM library WHERE 1=1"
  const QueryTail: string := "ORDER BY data_read DESC NULLS LAST"

  /** The constant fragment one non-empty filter appends to the query text. */
  function Fragment(f: Field): string {
    match f
    case Title => "AND title LIKE ?"
    case Author => "AND author LIKE ?"
    case Genre => "AND genre LIKE ?"
    case Year => "AND year LIKE ?"
    case Rating => "AND rating LIKE ?"
  }

  /** The bound parameter for a filter value, `f"%{value}%"`: the value with one `%`
      before it and one after it. */
  function Wrap(v: string): (r: string)
    ensures |r| == |v| + 2 && r[0] == '%' && r[|r| - 1] == '%' && r[1..|r| - 1] == v
  {
    "%" + v + "%"
  }

  /** The filters after `.strip()`. */
  function Trimmed(a: FilterArgs): FilterArgs {
    FilterArgs(Strip(a.title), Strip(a.author), Strip(a.genre), Strip(a.year), Strip(a.rating))
  }

  /** Each filter after the stripping step is its raw value with only the whitespace at its
      two ends removed: a contiguous infix of the raw value, empty exactly when the raw
      value is empty or all whitespace, and otherwise beginning and ending with a
      non-space character. */
  lemma TrimmedSpec(a: FilterArgs, f: Field)
    ensures var v, r := Value(a, f), Value(Trimmed(a), f);
      && r == Strip(v)
      && 0 <= LeadingSpace(v) && LeadingSpace(v) + |r| <= |v|
      && r == v[LeadingSpace(v)..LeadingSpace(v) + |r|]
      && (forall k :: 0 <= k < |v| && !(LeadingSpace(v) <= k < LeadingSpace(v) + |r|) ==> IsSpace(v[k]))
      && (r == "" <==> AllSpace(v))
      && (r != "" ==> !IsSpace(r[0]) && !IsSpace(r[|r| - 1]))
  {
    assert Value(Trimmed(a), f) == Strip(Value(a, f));
    StripSpec(Value(a, f));
  }

  /** The filters of `fs` whose value in `t` is non-empty, in the order of `fs`. */
  function Active(t: FilterArgs, fs: seq<Field>): (act: seq<Field>)
    ensures |act| <= |fs|
    ensures forall f :: f in act <==> f in fs && Value(t, f) != ""
  {
    if fs == [] then []
    else
      var last := fs[|fs| - 1];
      Active(t, fs[..|fs| - 1]) + (if Value(t, last) != "" then [last] else [])
  }

  /** The query text after the `if` blocks of the filters `fs` have appended their
      fragments to the initial text, with nothing in between. */
  function Conditions(fs: seq<Field>): string {
    if fs == [] then QueryHead else Conditions(fs[..|fs| - 1]) + Fragment(fs[|fs| - 1])
  }

  /** The bound parameters of the filters `fs`, one `%value%` pattern per filter. */
  function Bindings(t: FilterArgs, fs: seq<Field>): (ps: seq<string>)
    ensures |ps| == |fs|
    ensures forall i :: 0 <= i < |fs| ==> ps[i] == Wrap(Value(t, fs[i]))
  {
    if fs == [] then [] else Bindings(t, fs[..|fs| - 1]) + [Wrap(Value(t, fs[|fs| - 1]))]
  }

  /** The filters that contribute to the query for the request arguments `a`. */
  function Applied(a: FilterArgs): seq<Field> {
    Active(Trimmed(a), Fields)
  }

  /** The query text the handler passes to `execute`. */
  function ExpectedQuery(a: FilterArgs): string {
    Conditions(Applied(a)) + QueryTail
  }

  /** The parameter list the handler passes to `execute`. */
  function ExpectedParameters(a: FilterArgs): seq<string> {
    Bindings(Trimmed(a), Applied(a))
  }

  /** The `filters` map the handler hands to the template. */
  function EchoedFilters(a: FilterArgs): map<string, string> {
    var t := Trimmed(a);
    map[Key(Title) := t.title, Key(Author) := t.author, Key(Genre) := t.genre,
        Key(Year) := t.year, Key(Rating) := t.rating]
  }

  /** Appending a filter to `fs` appends its fragment to the text. */
  lemma SnocConditions(fs: seq<Field>, f: Field)
    ensures Conditions(fs + [f]) == Conditions(fs) + Fragment(f)
  {
  }

  /** Appending a filter to `fs` appends it to the active filters when its value is
      non-empty. */
  lemma SnocActive(t: FilterArgs, fs: seq<Field>, f: Field)
    ensures Active(t, fs + [f]) == Active(t, fs) + (if Value(t, f) != "" then [f] else [])
  {
  }

  /** One `if` block, for filter `f`, extends the query text built from the filters `fs`
      to the one built from `fs + [f]`. */
  lemma QueryStep(t: FilterArgs, fs: seq<Field>, f: Field, q: string, q': string)
    requires q == Conditions(Active(t, fs))
    requires q' == q + (if Value(t, f) != "" then Fragment(f) else "")
    ensures q' == Conditions(Active(t, fs + [f]))
  {
    var act := Active(t, fs);
    SnocActive(t, fs, f);
    if Value(t, f) != "" {
      SnocConditions(act, f);
      assert Active(t, fs + [f]) == act + [f];
      assert q' == Conditions(act + [f]);
    } else {
      assert Active(t, fs + [f]) == act;
      assert q' == q;
    }
  }

  /** One `if` block, for filter `f`, extends the parameters built from the filters `fs`
      to those built from `fs + [f]`. */
  lemma ParameterStep(t: FilterArgs, fs: seq<Field>, f: Field, ps: seq<string>, ps': seq<string>)
    requires ps == Bindings(t, Active(t, fs))
    requires ps' == ps + (if Value(t, f) != "" then [Wrap(Value(t, f))] else [])
    ensures ps' == Bindings(t, Active(t, fs + [f]))
  {
  }

  /** The map the handler builds from the five stripped values is `EchoedFilters`. */
  lemma EchoedFiltersFrom(args: FilterArgs, title: string, author: string, genre: string, year: string, rating: string)
    requires title == Strip(args.title) && author == Strip(args.author) && genre == Strip(args.genre)
    requires year == Strip(args.year) && rating == Strip(args.rating)
    ensures map["title" := title, "author" := author, "genre" := genre, "year" := year, "rating" := rating]
         == EchoedFilters(args)
  {
  }

  /** One `if` block of `index()`, for filter `f` with stripped value `value`: when the
      value is non-empty, append the filter's fragment to the query text and `%value%` to
      the parameters. This takes the query text and parameters built from the filters
      `seen` to those built from `seen + [f]`. */
  method AppendFilter(ghost t: FilterArgs, ghost seen: seq<Field>, f: Field, value: string,
                      query: string, parameters: seq<string>)
    returns (query': string, parameters': seq<string>)
    requires value == Value(t, f)
    requires query == Conditions(Active(t, seen)) && parameters == Bindings(t, Active(t, seen))
    ensures query' == Conditions(Active(t, seen + [f]))
    ensures parameters' == Bindings(t, Active(t, seen + [f]))
  {
    query', parameters' := query, parameters;
    if value != "" {
      query' := query' + Fragment(f);
      parameters' := parameters' + ["%" + value + "%"];
    }
    QueryStep(t, seen, f, query, query');
    ParameterStep(t, seen, f, parameters, parameters');
  }

  /** The body of `index()` up to the database call: strip the five filters, then build
      the query text and the parameter list by appending, and echo the stripped values. */
  method Index(args: FilterArgs) returns (query: string, parameters: seq<string>, filters: map<string, string>)
    ensures query == ExpectedQuery(args)
    ensures parameters == ExpectedParameters(args)
    ensures filters == EchoedFilters(args)
  {
    var title := Strip(args.title);
    var author := Strip(args.author);
    var genre := Strip(args.genre);
    var year := Strip(args.year);
    var rating := Strip(args.rating);
    // The filters whose `if` block has run, after each block.
    ghost var s1, s2, s3, s4 := [Title], [Title, Author], [Title, Author, Genre], [Title, Author, Genre, Year];
    assert [] + [Title] == s1 && s1 + [Author] == s2 && s2 + [Genre] == s3 && s3 + [Year] == s4;
    assert s4 + [Rating] == Fields;
    ghost var t := FilterArgs(title, author, genre, year, rating);
    assert t == Trimmed(args);

    query := "SELECT * FROM library WHERE 1=1";
    parameters := [];
    query, parameters := AppendFilter(t, [], Title, title, query, parameters);
    query, parameters := AppendFilter(t, s1, Author, author, query, parameters);
    query, parameters := AppendFilter(t, s2, Genre, genre, query, parameters);
    query, parameters := AppendFilter(t, s3, Year, year, query, parameters);
    query, parameters := AppendFilter(t, s4, Rating, rating, query, parameters);
    query := query + "ORDER BY data_read DESC NULLS LAST";

    filters := map["title" := title, "author" := author, "genre" := genre, "year" := year, "rating" := rating];
    EchoedFiltersFrom(args, title, author, genre, year, rating);
  }

  // Properties of the query text and parameters, for all request arguments.

  /** Number of `?` placeholders in a query text. */
  function Placeholders(s: string): nat {
    if s == [] then 0 else Placeholders(s[..|s| - 1]) + (if s[|s| - 1] == '?' then 1 else 0)
  }

  lemma {:induction false} PlaceholdersAppend(x: string, y: string)
    ensures Placeholders(x + y) == Placeholders(x) + Placeholders(y)
    decreases |y|
  {
    if y == [] {
      assert x + y == x;
    } else {
      assert (x + y)[..|x + y| - 1] == x + y[..|y| - 1];
      PlaceholdersAppend(x, y[..|y| - 1]);
    }
  }

  lemma {:induction false} NoPlaceholders(s: string)
    requires '?' !in s
    ensures Placeholders(s) == 0
  {
    if s != [] {
      assert s[|s| - 1] in s;
      var init := s[..|s| - 1];
      assert forall c :: c in init ==> c in s;
      NoPlaceholders(init);
    }
  }

  /** Each fragment holds exactly one placeholder, at its end. */
  lemma FragmentPlaceholder(f: Field)
    ensures Placeholders(Fragment(f)) == 1
  {
    var w := match f
      case Title => "AND title LIKE "
      case Author => "AND author LIKE "
      case Genre => "AND genre LIKE "
      case Year => "AND year LIKE "
      case Rating => "AND rating LIKE ";
    assert Fragment(f) == w + "?";
    NoPlaceholders(w);
    PlaceholdersAppend(w, "?");
    assert "?"[..0] == [];
  }

  /** The text built from the filters `fs` holds one placeholder per filter. */
  lemma {:induction false} PlaceholdersConditions(fs: seq<Field>)
    ensures Placeholders(Conditions(fs)) == |fs|
  {
    if fs == [] {
      NoPlaceholders(QueryHead);
    } else {
      var f := fs[|fs| - 1];
      PlaceholdersConditions(fs[..|fs| - 1]);
      PlaceholdersAppend(Conditions(fs[..|fs| - 1]), Fragment(f));
      FragmentPlaceholder(f);
    }
  }

  /** The query text has exactly as many `?` placeholders as there are bound parameters. */
  lemma PlaceholdersMatchParameters(a: FilterArgs)
    ensures Placeholders(ExpectedQuery(a)) == |ExpectedParameters(a)|
  {
    PlaceholdersQuery(Applied(a));
  }

  lemma PlaceholdersQuery(fs: seq<Field>)
    ensures Placeholders(Conditions(fs) + QueryTail) == |fs|
  {
    PlaceholdersConditions(fs);
    PlaceholdersWithTail(Conditions(fs));
  }

  lemma PlaceholdersWithTail(c: string)
    ensures Placeholders(c + QueryTail) == Placeholders(c)
  {
    PlaceholdersAppend(c, QueryTail);
    NoPlaceholders(QueryTail);
  }

  /** The filters of `fs` appear in strictly increasing rank, so each at most once. */
  ghost predicate InOrder(fs: seq<Field>) {
    forall i, j :: 0 <= i < j < |fs| ==> Rank(fs[i]) < Rank(fs[j])
  }

  lemma {:induction false} ActiveInOrder(t: FilterArgs, fs: seq<Field>)
    requires InOrder(fs)
    ensures InOrder(Active(t, fs))
    ensures forall g :: g in Active(t, fs) ==> g in fs
  {
    if fs != [] {
      var init, last := fs[..|fs| - 1], fs[|fs| - 1];
      assert InOrder(init);
      ActiveInOrder(t, init);
      var act := Active(t, init);
      forall g | g in act ensures Rank(g) < Rank(last) {
        var i :| 0 <= i < |init| && init[i] == g;
      }
    }
  }

  /** A filter contributes to the query exactly when its stripped value is non-empty, that
      is when its raw value is not empty or all whitespace; the contributing filters come
      in the order title, author, genre, year, rating, each at most once. */
  lemma AppliedFilters(a: FilterArgs)
    ensures forall f :: f in Applied(a) <==> !AllSpace(Value(a, f))
    ensures InOrder(Applied(a)) && |Applied(a)| <= 5
  {
    forall f ensures f in Applied(a) <==> !AllSpace(Value(a, f)) {
      TrimmedSpec(a, f);
      assert f in Fields by {
        assert Fields[Rank(f)] == f;
      }
    }
    ActiveInOrder(Trimmed(a), Fields);
  }

  /** There is one parameter per contributing filter, in the same order, and each is the
      filter's stripped value between two `%` signs. */
  lemma ParametersOfApplied(a: FilterArgs)
    ensures |ExpectedParameters(a)| == |Applied(a)| <= 5
    ensures forall i :: 0 <= i < |Applied(a)| ==>
      ExpectedParameters(a)[i] == "%" + Strip(Value(a, Applied(a)[i])) + "%"
  {
  }

  /** A filter that is empty or all whitespace adds neither a query fragment nor a
      parameter: the request is handled exactly as if that filter had not been given. */
  lemma BlankFilterIgnored(a: FilterArgs, f: Field)
    requires AllSpace(Value(a, f))
    ensures f !in Applied(a)
    ensures ExpectedQuery(a) == ExpectedQuery(Cleared(a, f))
    ensures ExpectedParameters(a) == ExpectedParameters(Cleared(a, f))
  {
    AppliedFilters(a);
    StripSpec(Value(a, f));
    StripSpec("");
    assert Trimmed(a) == Trimmed(Cleared(a, f));
  }

  lemma {:induction false} ActiveSamePattern(t: FilterArgs, u: FilterArgs, fs: seq<Field>)
    requires forall f :: (Value(t, f) == "") == (Value(u, f) == "")
    ensures Active(t, fs) == Active(u, fs)
  {
    if fs != [] {
      ActiveSamePattern(t, u, fs[..|fs| - 1]);
    }
  }

  /** The query text depends only on which filters are blank, never on what the filters
      hold: two requests that leave the same filters blank get the same query text, so no
      character of a filter value is ever placed in it. */
  lemma QueryIgnoresValues(a: FilterArgs, b: FilterArgs)
    requires forall f :: AllSpace(Value(a, f)) == AllSpace(Value(b, f))
    ensures ExpectedQuery(a) == ExpectedQuery(b)
  {
    forall f ensures (Value(Trimmed(a), f) == "") == (Value(Trimmed(b), f) == "") {
      TrimmedSpec(a, f);
      TrimmedSpec(b, f);
    }
    ActiveSamePattern(Trimmed(a), Trimmed(b), Fields);
  }

  lemma {:induction false} ConditionsStartWithHead(fs: seq<Field>)
    ensures |QueryHead| <= |Conditions(fs)| && Conditions(fs)[..|QueryHead|] == QueryHead
  {
    if fs != [] {
      ConditionsStartWithHead(fs[..|fs| - 1]);
      var c := Conditions(fs[..|fs| - 1]);
      assert (c + Fragment(fs[|fs| - 1]))[..|QueryHead|] == c[..|QueryHead|];
    }
  }

  /** The query text always starts with `SELECT * FROM library WHERE 1=1` and always ends
      with `ORDER BY data_read DESC NULLS LAST`. */
  lemma QueryFrame(a: FilterArgs)
    ensures var q := ExpectedQuery(a);
      && |QueryHead| + |QueryTail| <= |q|
      && q[..|QueryHead|] == "SELECT * FROM library WHERE 1=1"
      && q[|q| - |QueryTail|..] == "ORDER BY data_read DESC NULLS LAST"
  {
    var c := Conditions(Applied(a));
    ConditionsStartWithHead(Applied(a));
    assert (c + QueryTail)[..|QueryHead|] == c[..|QueryHead|];
    assert (c + QueryTail)[|c|..] == QueryTail;
  }

  /** With every filter blank, the query is the initial text directly followed by the
      ordering, with no space between them, and there are no parameters. */
  lemma NoFilters(a: FilterArgs)
    requires forall f :: AllSpace(Value(a, f))
    ensures ExpectedQuery(a) == "SELECT * FROM library WHERE 1=1ORDER BY data_read DESC NULLS LAST"
    ensures ExpectedParameters(a) == []
  {
    forall f ensures Value(Trimmed(a), f) == "" {
      TrimmedSpec(a, f);
    }
    NoneActive(Trimmed(a), Fields);
    assert Conditions([]) == QueryHead;
    UnfilteredQuery();
  }

  lemma {:induction false} NoneActive(t: FilterArgs, fs: seq<Field>)
    requires forall f :: Value(t, f) == ""
    ensures Active(t, fs) == []
  {
    if fs != [] {
      NoneActive(t, fs[..|fs| - 1]);
    }
  }

  /** The initial text and the ordering are joined with no space between them. */
  lemma UnfilteredQuery()
    ensures QueryHead + QueryTail == "SELECT * FROM library WHERE 1=1ORDER BY data_read DESC NULLS LAST"
  {
  }

  /** The echoed map has exactly the five filter names as keys, and holds each filter's
      stripped value under its own name, blank or not. */
  lemma EchoedFiltersHoldStripped(a: FilterArgs)
    ensures EchoedFilters(a).Keys == {"title", "author", "genre", "year", "rating"}
    ensures forall f :: Key(f) in EchoedFilters(a) && EchoedFilters(a)[Key(f)] == Strip(Value(a, f))
  {
  }
}
