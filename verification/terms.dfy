/** Academic terms (`Term`) and the queries of their manager (`TermManager`),
    base/models.py. The terms table is modelled as a sequence of rows kept in
    primary-key order, the order the model's `Meta.ordering` gives it. */
module Terms {
  import opened Results
  import opened Text

  /** The five values the `term` column may hold. */
  datatype Season = Unknown | Winter | Spring | Summer | Fall

  /** The two-letter code stored in the `term` column. */
  function Code(s: Season): (c: string)
    ensures |c| == 2
  {
    match s
    case Unknown => "un"
    case Winter => "wi"
    case Spring => "sp"
    case Summer => "su"
    case Fall => "fa"
  }

  /** The inverse of `Code`: which season, if any, a two-letter code names. */
  function SeasonOfCode(code: string): (r: Option<Season>)
    ensures r.Some? ==> Code(r.value) == code
    ensures forall s :: Code(s) == code ==> r == Some(s)
  {
    if code == "un" then Some(Unknown)
    else if code == "wi" then Some(Winter)
    else if code == "sp" then Some(Spring)
    else if code == "su" then Some(Summer)
    else if code == "fa" then Some(Fall)
    else None
  }

  /** `TERM_MAPPING`: the digit a season contributes to the primary key. */
  function Index(s: Season): (i: nat)
    ensures i < 5
  {
    match s
    case Unknown => 0
    case Winter => 1
    case Spring => 2
    case Summer => 3
    case Fall => 4
  }

  lemma IndexInjective(s: Season, t: Season)
    ensures Index(s) == Index(t) ==> s == t
  {
  }

  /** An in-memory `Term` object; `id` is `None` until it is first saved. */
  datatype Term = Term(id: Option<int>, season: Season, year: nat, current: bool)

  /** `_calculate_pk`: the year followed by the season digit. Decoding the key
      with floor division and remainder by 10 gives back year and season. */
  function Pk(t: Term): (pk: nat)
    ensures pk / 10 == t.year
    ensures pk % 10 == Index(t.season)
  {
    t.year * 10 + Index(t.season)
  }

  /** The consistency test of `save`: `id // 10` is the year and `id % 10`
      the season digit. Python's floor `//` and `%` agree with Dafny's
      Euclidean ones for the positive divisor 10. */
  predicate IdAgrees(id: int, t: Term)
    ensures IdAgrees(id, t) ==> id >= 0 && id / 10 == Pk(t) / 10 && id % 10 == Pk(t) % 10
  {
    id / 10 == t.year && id % 10 == Index(t.season)
  }

  /** The consistency test accepts exactly the key `_calculate_pk` computes. */
  lemma IdAgreesIffPk(id: int, t: Term)
    ensures IdAgrees(id, t) <==> id == Pk(t)
  {
  }

  /** Two terms have the same key exactly when they name the same season and year. */
  lemma PkInjective(a: Term, b: Term)
    ensures Pk(a) == Pk(b) <==> a.season == b.season && a.year == b.year
  {
    if Pk(a) == Pk(b) {
      assert a.year == Pk(a) / 10 == Pk(b) / 10 == b.year;
      assert Index(a.season) == Pk(a) % 10 == Pk(b) % 10 == Index(b.season);
      IndexInjective(a.season, b.season);
    }
  }

  /** `get_url_name`: the season code followed by the decimal year. */
  function UrlName(t: Term): (r: string)
    ensures |r| > 2
    ensures r[..2] == Code(t.season)
    ensures r[2..] == Decimal(t.year)
    ensures ParseNat(r[2..]) == Some(t.year)
  {
    var r := Code(t.season) + Decimal(t.year);
    assert r[2..] == Decimal(t.year);
    ParseDecimal(t.year);
    r
  }

  // ---------------------------------------------------------------------------
  // Comparison operators between two terms

  /** `__lt__`: by year, then by season digit; the same order as the keys. */
  predicate Less(a: Term, b: Term)
    ensures Less(a, b) <==> Pk(a) < Pk(b)
  {
    if a.year < b.year then true
    else if a.year > b.year then false
    else Index(a.season) < Index(b.season)
  }

  /** `__eq__`: same season and year, whatever `id` and `current` hold. */
  predicate Equal(a: Term, b: Term)
    ensures Equal(a, b) <==> Pk(a) == Pk(b)
  {
    PkInjective(a, b);
    a.season == b.season && a.year == b.year
  }

  /** `__le__`, derived from `__lt__` with the operands swapped. */
  predicate LessEq(a: Term, b: Term)
    ensures LessEq(a, b) <==> Less(a, b) || Equal(a, b)
  {
    !Less(b, a)
  }

  /** `__gt__`, derived from `__lt__` with the operands swapped. */
  predicate Greater(a: Term, b: Term)
    ensures Greater(a, b) <==> Pk(a) > Pk(b)
  {
    Less(b, a)
  }

  /** `__ge__`, derived from `__lt__`. */
  predicate GreaterEq(a: Term, b: Term)
    ensures GreaterEq(a, b) <==> Greater(a, b) || Equal(a, b)
  {
    !Less(a, b)
  }

  /** `__ne__`, the negation of `__eq__`. */
  predicate NotEqual(a: Term, b: Term)
    ensures NotEqual(a, b) <==> Less(a, b) || Greater(a, b)
  {
    !Equal(a, b)
  }

  // ---------------------------------------------------------------------------
  // The terms table

  /** Rows in strictly increasing primary-key order. */
  predicate Sorted(rows: seq<Term>)
  {
    forall i, j :: 0 <= i < j < |rows| ==> Pk(rows[i]) < Pk(rows[j])
  }

  /** Rows in strictly decreasing primary-key order. */
  predicate SortedDown(rows: seq<Term>)
  {
    forall i, j :: 0 <= i < j < |rows| ==> Pk(rows[i]) > Pk(rows[j])
  }

  /** A table every row of which was written by `Save`: each stored id is the
      key computed from season and year, and rows are in key order. */
  predicate Valid(store: seq<Term>)
  {
    && Sorted(store)
    && forall i :: 0 <= i < |store| ==> store[i].id == Some(Pk(store[i]))
  }

  /** The invariant `Save` keeps: no two rows are both marked current. */
  predicate AtMostOneCurrent(store: seq<Term>)
  {
    forall u, v :: u in store && v in store && u.current && v.current ==> u == v
  }

  lemma SortedTail(rows: seq<Term>)
    requires Sorted(rows) && rows != []
    ensures Sorted(rows[1..])
    ensures forall u :: u in rows[1..] ==> Pk(rows[0]) < Pk(u)
  {
    forall u | u in rows[1..] ensures Pk(rows[0]) < Pk(u) {
      var k :| 0 <= k < |rows[1..]| && rows[1..][k] == u;
      assert rows[k + 1] == u;
    }
  }

  lemma SortedCons(x: Term, rest: seq<Term>)
    requires Sorted(rest) && forall u :: u in rest ==> Pk(x) < Pk(u)
    ensures Sorted([x] + rest)
  {
    var s := [x] + rest;
    forall i, j | 0 <= i < j < |s| ensures Pk(s[i]) < Pk(s[j]) {
      assert s[j] == rest[j - 1];
      if i > 0 {
        assert s[i] == rest[i - 1];
      }
    }
  }

  lemma PkDeterminesRow(store: seq<Term>, u: Term, v: Term)
    requires Sorted(store) && u in store && v in store && Pk(u) == Pk(v)
    ensures u == v
  {
    var i :| 0 <= i < |store| && store[i] == u;
    var j :| 0 <= j < |store| && store[j] == v;
    assert !(i < j) && !(j < i);
  }

  /** A queryset `filter`: keeps the rows satisfying `p`, in order. */
  function Where(rows: seq<Term>, p: Term -> bool): (r: seq<Term>)
    ensures forall u :: u in r <==> u in rows && p(u)
    ensures Sorted(rows) ==> Sorted(r)
    ensures |r| <= |rows|
    decreases |rows|
  {
    if rows == [] then []
    else
      var rest := Where(rows[1..], p);
      assert forall u :: u in rows ==> u == rows[0] || u in rows[1..];
      assert Sorted(rows) ==> Sorted(rows[1..]) && forall u :: u in rest ==> Pk(rows[0]) < Pk(u) by {
        if Sorted(rows) { SortedTail(rows); }
      }
      if p(rows[0]) then
        assert Sorted(rows) ==> Sorted([rows[0]] + rest) by {
          if Sorted(rows) { SortedCons(rows[0], rest); }
        }
        [rows[0]] + rest
      else rest
  }

  /** `order_by('-id')` on rows in key order. */
  function Reversed(rows: seq<Term>): (r: seq<Term>)
    ensures |r| == |rows|
    ensures forall u :: u in r <==> u in rows
    ensures Sorted(rows) ==> SortedDown(r)
  {
    var r := seq(|rows|, i requires 0 <= i < |rows| => rows[|rows| - 1 - i]);
    assert forall u :: u in rows ==> u in r by {
      forall u | u in rows ensures u in r {
        var k :| 0 <= k < |rows| && rows[k] == u;
        assert r[|rows| - 1 - k] == u;
      }
    }
    r
  }

  /** Inserts a row at its key position, replacing a row with the same key:
      the database's update-or-insert on the primary key. */
  function Upsert(rows: seq<Term>, t: Term): (r: seq<Term>)
    requires Sorted(rows)
    ensures Sorted(r)
    ensures forall u :: u in r <==> u == t || (u in rows && Pk(u) != Pk(t))
    decreases |rows|
  {
    if rows == [] then [t]
    else
      SortedTail(rows);
      assert forall u :: u in rows ==> u == rows[0] || u in rows[1..];
      if Pk(rows[0]) == Pk(t) then
        SortedCons(t, rows[1..]);
        [t] + rows[1..]
      else if Pk(t) < Pk(rows[0]) then
        SortedCons(t, rows);
        [t] + rows
      else
        var rest := Upsert(rows[1..], t);
        SortedCons(rows[0], rest);
        [rows[0]] + rest
  }

  /** `filter(current=True).exclude(id=pk).update(current=False)`. */
  function ClearOtherCurrent(rows: seq<Term>, pk: int): (r: seq<Term>)
    ensures |r| == |rows|
    ensures forall i :: 0 <= i < |rows| ==> r[i].(current := rows[i].current) == rows[i]
    ensures forall i :: 0 <= i < |rows| ==> (r[i].current <==> rows[i].current && rows[i].id == Some(pk))
  {
    seq(|rows|, i requires 0 <= i < |rows| =>
      if rows[i].current && rows[i].id != Some(pk) then rows[i].(current := false) else rows[i])
  }

  /** Raised by `save` when `id` disagrees with year and season. */
  datatype SaveError = PrimaryKeyMismatch

  /** The placeholder term `save` silently refuses to store. */
  predicate IsPlaceholder(t: Term)
  {
    t.season == Unknown && t.year == 0
  }

  /** `Term.save`, without its officer-group side effect (see `Officers.SaveTerm`).
      Returns the new table and the saved object, whose `id` is now set. */
  function Save(store: seq<Term>, t: Term): (r: Result<(seq<Term>, Term), SaveError>)
    requires Valid(store)
    ensures IsPlaceholder(t) ==> r == Success((store, t))
    ensures !IsPlaceholder(t) ==> (r.Failure? <==> t.id.Some? && t.id.value != Pk(t))
    ensures r.Success? ==> Valid(r.value.0)
    ensures r.Success? && !IsPlaceholder(t) ==>
      r.value.1 == t.(id := Some(Pk(t))) && r.value.1 in r.value.0
  {
    if IsPlaceholder(t) then Success((store, t))
    else if t.id.Some? && !IdAgrees(t.id.value, t) then
      IdAgreesIffPk(t.id.value, t);
      Failure(PrimaryKeyMismatch)
    else
      IdAgreesIffPk(if t.id.Some? then t.id.value else 0, t);
      var saved := t.(id := Some(Pk(t)));
      var cleared := if saved.current then ClearOtherCurrent(store, Pk(saved)) else store;
      assert Valid(cleared) by {
        assert forall i :: 0 <= i < |cleared| ==> Pk(cleared[i]) == Pk(store[i]);
      }
      var rows := Upsert(cleared, saved);
      assert Valid(rows) by {
        forall u | u in rows ensures u.id == Some(Pk(u)) {
          if u != saved {
            var i :| 0 <= i < |cleared| && cleared[i] == u;
          }
        }
      }
      Success((rows, saved))
  }

  /** What `save` does to the rows it does not write: after saving a current
      term it is the only current row, and every other row keeps all of its
      fields but `current`; a non-current save leaves other rows untouched. */
  lemma SaveFrame(store: seq<Term>, t: Term)
    requires Valid(store) && !IsPlaceholder(t) && Save(store, t).Success?
    ensures var (rows, saved) := Save(store, t).value;
      && (forall v :: v in store && Pk(v) != Pk(saved) ==>
            (if saved.current then v.(current := false) else v) in rows)
      && (forall u :: u in rows && u != saved ==>
            Pk(u) != Pk(saved) && (u in store || (!u.current && u.(current := true) in store)))
      && (saved.current ==> forall u :: u in rows && u.current ==> u == saved)
      && (!saved.current ==> forall u :: u in rows && u != saved ==> u in store)
  {
    var (rows, saved) := Save(store, t).value;
    var cleared := if saved.current then ClearOtherCurrent(store, Pk(saved)) else store;
    assert Sorted(cleared) && rows == Upsert(cleared, saved);
    UpsertFrame(store, saved, cleared, rows);
  }

  /** `SaveFrame` for the table `save` builds: the cleared rows with the
      saved row upserted. */
  lemma UpsertFrame(store: seq<Term>, saved: Term, cleared: seq<Term>, rows: seq<Term>)
    requires Valid(store) && saved.id == Some(Pk(saved))
    requires cleared == (if saved.current then ClearOtherCurrent(store, Pk(saved)) else store)
    requires Sorted(cleared) && rows == Upsert(cleared, saved)
    ensures forall v :: v in store && Pk(v) != Pk(saved) ==>
      (if saved.current then v.(current := false) else v) in rows
    ensures forall u :: u in rows && u != saved ==>
      Pk(u) != Pk(saved) && (u in store || (!u.current && u.(current := true) in store))
    ensures saved.current ==> forall u :: u in rows && u.current ==> u == saved
    ensures !saved.current ==> forall u :: u in rows && u != saved ==> u in store
  {
    UpsertKeepsOthers(store, saved, cleared, rows);
    UpsertAddsOnlySaved(store, saved, cleared, rows);
  }

  /** Every stored row with another key is still there, cleared if the
      saved row is current. */
  lemma UpsertKeepsOthers(store: seq<Term>, saved: Term, cleared: seq<Term>, rows: seq<Term>)
    requires Valid(store) && saved.id == Some(Pk(saved))
    requires cleared == (if saved.current then ClearOtherCurrent(store, Pk(saved)) else store)
    requires Sorted(cleared) && rows == Upsert(cleared, saved)
    ensures forall v :: v in store && Pk(v) != Pk(saved) ==>
      (if saved.current then v.(current := false) else v) in rows
  {
    forall v | v in store && Pk(v) != Pk(saved)
      ensures (if saved.current then v.(current := false) else v) in rows
    {
      var i :| 0 <= i < |store| && store[i] == v;
      assert store[i].id != Some(Pk(saved));
      assert cleared[i] == (if saved.current then v.(current := false) else v);
    }
  }

  /** Every row other than the saved one was stored before, possibly with
      `current` cleared. */
  lemma UpsertAddsOnlySaved(store: seq<Term>, saved: Term, cleared: seq<Term>, rows: seq<Term>)
    requires Valid(store) && saved.id == Some(Pk(saved))
    requires cleared == (if saved.current then ClearOtherCurrent(store, Pk(saved)) else store)
    requires Sorted(cleared) && rows == Upsert(cleared, saved)
    ensures forall u :: u in rows && u != saved ==>
      Pk(u) != Pk(saved) && (u in store || (!u.current && u.(current := true) in store))
    ensures saved.current ==> forall u :: u in rows && u.current ==> u == saved
    ensures !saved.current ==> forall u :: u in rows && u != saved ==> u in store
  {
    forall u | u in rows && u != saved
      ensures Pk(u) != Pk(saved) && (u in store || (!u.current && u.(current := true) in store))
      ensures saved.current ==> !u.current
      ensures !saved.current ==> u in store
    {
      assert u in cleared && Pk(u) != Pk(saved);
      var i :| 0 <= i < |cleared| && cleared[i] == u;
      assert Pk(store[i]) == Pk(u) && store[i].id == Some(Pk(u));
      if saved.current && store[i].current && store[i].id != Some(Pk(saved)) {
        assert u == store[i].(current := false);
        assert u.(current := true) == store[i];
      }
    }
  }

  /** `save` keeps at most one term marked current. */
  lemma SaveKeepsOneCurrent(store: seq<Term>, t: Term)
    requires Valid(store) && AtMostOneCurrent(store) && Save(store, t).Success?
    ensures AtMostOneCurrent(Save(store, t).value.0)
  {
    if !IsPlaceholder(t) {
      SaveFrame(store, t);
      var (rows, saved) := Save(store, t).value;
      forall u, v | u in rows && v in rows && u.current && v.current ensures u == v {
        if !saved.current {
          assert u != saved && v != saved;
        }
      }
    }
  }

  // ---------------------------------------------------------------------------
  // TermManager queries

  /** `get_current_term`: `get(current=True)`, which raises when several rows
      are current. (The cache in front of it is a performance layer only.) */
  function GetCurrentTerm(store: seq<Term>): (r: Fetch<Term>)
    ensures r.Found? ==> r.value in store && r.value.current
    ensures r.Found? ==> forall u :: u in store && u.current ==> u == r.value
    ensures r.DoesNotExist? <==> forall u :: u in store ==> !u.current
    ensures Sorted(store) && AtMostOneCurrent(store) ==> !r.MultipleObjectsReturned?
  {
    var currents := Where(store, (u: Term) => u.current);
    if |currents| == 0 then DoesNotExist
    else if |currents| == 1 then Found(currents[0])
    else
      assert currents[0] in currents && currents[1] in currents;
      assert Sorted(store) ==> Pk(currents[0]) < Pk(currents[1]);
      MultipleObjectsReturned
  }

  /** The optional criteria of `get_terms`. */
  datatype TermQuery = TermQuery(
    includeFuture: bool, includeSummer: bool, includeUnknown: bool, reverse: bool)

  /** Whether a season is listed: unknown and summer only on request, winter
      never under a semester system. `termType` is the `TERM_TYPE` setting. */
  predicate SeasonListed(s: Season, q: TermQuery, termType: string)
  {
    && (q.includeUnknown || s != Unknown)
    && (q.includeSummer || s != Summer)
    && (termType != "semester" || s != Winter)
  }

  /** With the default arguments, a quarter system lists winter, spring and
      fall, and a semester system spring and fall. */
  lemma DefaultListing(s: Season)
    ensures SeasonListed(s, TermQuery(false, false, false, false), "quarter") <==> s in {Winter, Spring, Fall}
    ensures SeasonListed(s, TermQuery(false, false, false, false), "semester") <==> s in {Spring, Fall}
  {
  }

  /** `get_terms`: the rows that pass the season filter and, unless future
      terms are wanted, are not after the current term; ascending by key, or
      descending when `reverse`. Fails when looking up the current term does. */
  function GetTerms(store: seq<Term>, q: TermQuery, termType: string): (r: Result<seq<Term>, Fetch<Term>>)
    requires Valid(store)
    ensures r.Failure? <==> !q.includeFuture && GetCurrentTerm(store).MultipleObjectsReturned?
    ensures r.Success? ==> forall u :: u in r.value <==>
      && u in store
      && SeasonListed(u.season, q, termType)
      && (!q.includeFuture && GetCurrentTerm(store).Found? ==> Pk(u) <= Pk(GetCurrentTerm(store).value))
    ensures r.Success? && !q.reverse ==> Sorted(r.value)
    ensures r.Success? && q.reverse ==> SortedDown(r.value)
  {
    var listed := Where(store, (u: Term) => SeasonListed(u.season, q, termType));
    var order := (rows: seq<Term>) requires Sorted(rows) => if q.reverse then Reversed(rows) else rows;
    if q.includeFuture then Success(order(listed))
    else
      match GetCurrentTerm(store)
      case MultipleObjectsReturned => Failure(MultipleObjectsReturned)
      case DoesNotExist => Success(order(listed))
      case Found(c) =>
        assert c.id == Some(Pk(c));
        var upTo := Where(listed, (u: Term) => u.id.Some? && u.id.value <= c.id.value);
        assert forall u :: u in listed ==> u.id == Some(Pk(u));
        Success(order(upTo))
  }

  /** `get(term=code, year=year)`: the row with that season and year. */
  function Get(store: seq<Term>, season: Season, year: nat): (r: Option<Term>)
    requires Valid(store)
    ensures r.Some? ==> r.value in store && r.value.season == season && r.value.year == year
    ensures r.None? ==> forall u :: u in store ==> !(u.season == season && u.year == year)
  {
    var hits := Where(store, (u: Term) => u.season == season && u.year == year);
    if hits == [] then None else Some(hits[0])
  }

  /** The argument of `get_by_url_name`, which may not be a string at all. */
  datatype UrlParam = StringParam(text: string) | OtherParam

  /** `get_by_url_name`: splits the name after two characters into season
      code and year; a non-string, a year `int()` rejects, or a name with no
      matching row gives `None`. */
  function GetByUrlName(store: seq<Term>, name: UrlParam): (r: Option<Term>)
    requires Valid(store)
    ensures name.OtherParam? ==> r.None?
    ensures name.StringParam? && ParseNat(name.text[Min2(|name.text|)..]).None? ==> r.None?
    ensures r.Some? ==>
      && r.value in store
      && Code(r.value.season) == name.text[..2]
      && ParseNat(name.text[2..]) == Some(r.value.year)
    ensures name.StringParam? && |name.text| >= 2 &&
      (exists u :: u in store && Code(u.season) == name.text[..2] && ParseNat(name.text[2..]) == Some(u.year))
      ==> r.Some?
  {
    match name
    case OtherParam => None
    case StringParam(s) =>
      var code, yearText := s[..Min2(|s|)], s[Min2(|s|)..];
      match ParseNat(yearText)
      case None => None
      case Some(year) =>
        match SeasonOfCode(code)
        case None => None
        case Some(season) => Get(store, season, year)
  }

  /** Python's clamping of the slice bound 2 to the string length. */
  function Min2(n: nat): (m: nat)
    ensures m <= n && m <= 2 && (n >= 2 ==> m == 2)
  {
    if n < 2 then n else 2
  }

  /** `get_by_url_name(t.get_url_name())` finds every stored term. */
  lemma UrlNameRoundTrip(store: seq<Term>, t: Term)
    requires Valid(store) && t in store
    ensures GetByUrlName(store, StringParam(UrlName(t))) == Some(t)
  {
    var name := UrlName(t);
    var r := GetByUrlName(store, StringParam(name));
    assert name[..Min2(|name|)] == Code(t.season);
    var g := Get(store, t.season, t.year);
    assert r == g;
    PkInjective(g.value, t);
    PkDeterminesRow(store, g.value, t);
  }
}
