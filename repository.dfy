/** The query side of the generic repository: folding specifications into the
    query builder, filtered finds that convert persistence models to domain
    entities, counting, and the paginated find with its page-size clamp,
    count decision and page-count arithmetic.

    The object-relational mapper is not modelled. A database handle is a list
    of `Where` clauses already applied plus an oracle that answers the two
    statements this code issues: a row count and a row fetch with a limit and
    an offset. Each answer is either a value or a database error. */
module Repository {
  import opened Wrappers
  import Utils

  /** An error reported by the database or the mapper, passed through as is. */
  datatype DbError = DbError(message: string)

  /** A filter condition: its query fragment (GetQuery) and its positional
      parameter values (GetValues). */
  datatype Specification<V> = Specification(query: string, values: seq<V>)

  /** One `Where(query, values...)` call recorded on the query builder. */
  datatype Clause<V> = Clause(query: string, values: seq<V>)

  /** A statement sent to the database, with the clauses it is filtered by. */
  datatype Statement<V> =
    | CountStatement(clauses: seq<Clause<V>>)
    | FindStatement(clauses: seq<Clause<V>>, limit: int, offset: int)

  /** A database handle: the clauses applied so far and the oracle that
      answers a count or a find over rows of model type M. A negative limit
      or offset means "none", as the mapper's convention has it. */
  datatype Db<!V, M> = Db(
    clauses: seq<Clause<V>>,
    count: seq<Clause<V>> -> Result<nat, DbError>,
    find: (seq<Clause<V>>, int, int) -> Result<seq<M>, DbError>)
  {
    /** The handle with one more conjunctive condition. */
    function Where(query: string, values: seq<V>): Db<V, M>
    {
      this.(clauses := clauses + [Clause(query, values)])
    }

    /** `Model(m).Count(&n)` on this handle. */
    function Count(): Result<nat, DbError>
    {
      count(clauses)
    }

    /** `Limit(limit).Offset(offset).Find(&models)` on this handle. */
    function Find(limit: int, offset: int): Result<seq<M>, DbError>
    {
      find(clauses, limit, offset)
    }
  }

  /** The repository for one (model, entity) pair: its database handle and
      the model's `ToEntity` conversion. */
  datatype GormRepository<!V, !M, E> = GormRepository(db: Db<V, M>, toEntity: M -> E)

  /** The pagination request. */
  datatype PageConfig = PageConfig(page: int, size: int, ignoreCount: bool, forceCount: bool)

  /** The pagination answer: the rows of the page (as models), the number of
      pages (0 when no count was made) and the requested page echoed back. */
  datatype PageResult<M> = PageResult(data: seq<M>, count: int, page: int)

  /** The clauses one Where per specification adds, in input order. The
      reference definition for GetPreWarmDbForSelect. */
  function WhereClauses<V>(specs: seq<Specification<V>>): seq<Clause<V>>
  {
    if specs == [] then []
    else [Clause(specs[0].query, specs[0].values)] + WhereClauses(specs[1..])
  }

  /** Clause i is exactly specification i's query and values: one clause per
      specification, nothing else, same order. */
  lemma {:induction false} WhereClausesAt<V>(specs: seq<Specification<V>>)
    ensures |WhereClauses(specs)| == |specs|
    ensures forall i :: 0 <= i < |specs| ==>
              WhereClauses(specs)[i] == Clause(specs[i].query, specs[i].values)
  {
    if specs != [] {
      WhereClausesAt(specs[1..]);
      var w := WhereClauses(specs);
      forall i | 0 < i < |specs|
        ensures w[i] == Clause(specs[i].query, specs[i].values)
      {
        assert w[i] == WhereClauses(specs[1..])[i - 1];
      }
    }
  }

  /** Applying a ++ b is applying a, then b: composition is conjunction in
      the order supplied, with no reordering or de-duplication. */
  lemma {:induction false} WhereClausesAppend<V>(a: seq<Specification<V>>, b: seq<Specification<V>>)
    ensures WhereClauses(a + b) == WhereClauses(a) + WhereClauses(b)
  {
    if a != [] {
      assert (a + b)[1..] == a[1..] + b;
      WhereClausesAppend(a[1..], b);
    } else {
      assert a + b == b;
    }
  }

  /** The handle that getPreWarmDbForSelect produces. */
  function Prewarmed<V, M, E>(r: GormRepository<V, M, E>, specs: seq<Specification<V>>): Db<V, M>
  {
    r.db.(clauses := r.db.clauses + WhereClauses(specs))
  }

  /** The entities are the models converted one by one, in order. */
  ghost predicate ConvertedFrom<M, E>(entities: seq<E>, models: seq<M>, toEntity: M -> E)
  {
    |entities| == |models| && forall i :: 0 <= i < |models| ==> entities[i] == toEntity(models[i])
  }

  /** getPreWarmDbForSelect: one Where per specification on the repository's
      handle, in input order; the oracle is untouched. */
  method GetPreWarmDbForSelect<V, M, E>(r: GormRepository<V, M, E>, specs: seq<Specification<V>>)
    returns (dbPrewarm: Db<V, M>)
    ensures dbPrewarm == Prewarmed(r, specs)
  {
    dbPrewarm := r.db;
    for i := 0 to |specs|
      invariant dbPrewarm == r.db.(clauses := r.db.clauses + WhereClauses(specs[..i]))
    {
      var s := specs[i];
      WhereClausesAppend(specs[..i], [s]);
      assert specs[..i + 1] == specs[..i] + [s];
      dbPrewarm := dbPrewarm.Where(s.query, s.values);
    }
    assert specs[..|specs|] == specs;
  }

  /** FromModelToDto: converts every model to its entity, in order; an empty
      input gives an empty result. */
  method FromModelToDto<V, M, E>(r: GormRepository<V, M, E>, models: seq<M>) returns (result: seq<E>)
    ensures ConvertedFrom(result, models, r.toEntity)
    ensures models == [] ==> result == []
  {
    result := [];
    if |models| == 0 {
      return;
    }
    for i := 0 to |models|
      invariant ConvertedFrom(result, models[..i], r.toEntity)
    {
      result := result + [r.toEntity(models[i])];
    }
    assert models[..|models|] == models;
  }

  /** FindWithLimit: fetches the filtered rows with the given limit and
      offset; on error no entities are returned, otherwise every row is
      converted, in order. */
  method FindWithLimit<V, M, E>(r: GormRepository<V, M, E>, limit: int, offset: int, specs: seq<Specification<V>>)
    returns (entities: seq<E>, err: Option<DbError>)
    ensures var found := Prewarmed(r, specs).Find(limit, offset);
            found.Failure? ==> entities == [] && err == Some(found.error)
    ensures var found := Prewarmed(r, specs).Find(limit, offset);
            found.Success? ==> err == None && ConvertedFrom(entities, found.value, r.toEntity)
  {
    var dbPrewarm := GetPreWarmDbForSelect(r, specs);
    var found := dbPrewarm.Find(limit, offset);
    if found.Failure? {
      return [], Some(found.error);
    }
    var models := found.value;
    entities := [];
    for i := 0 to |models|
      invariant ConvertedFrom(entities, models[..i], r.toEntity)
    {
      entities := entities + [r.toEntity(models[i])];
    }
    assert models[..|models|] == models;
    err := None;
  }

  /** Find: the filtered rows with neither limit nor offset. */
  method Find<V, M, E>(r: GormRepository<V, M, E>, specs: seq<Specification<V>>)
    returns (entities: seq<E>, err: Option<DbError>)
    ensures var found := Prewarmed(r, specs).Find(-1, -1);
            && (found.Failure? ==> entities == [] && err == Some(found.error))
            && (found.Success? ==> err == None && ConvertedFrom(entities, found.value, r.toEntity))
  {
    entities, err := FindWithLimit(r, -1, -1, specs);
  }

  /** FindPaged: identical to Find; it does not paginate. */
  method FindPaged<V, M, E>(r: GormRepository<V, M, E>, specs: seq<Specification<V>>)
    returns (entities: seq<E>, err: Option<DbError>)
    ensures var found := Prewarmed(r, specs).Find(-1, -1);
            && (found.Failure? ==> entities == [] && err == Some(found.error))
            && (found.Success? ==> err == None && ConvertedFrom(entities, found.value, r.toEntity))
  {
    entities, err := FindWithLimit(r, -1, -1, specs);
  }

  /** FindAll: every row of the repository's handle, no specification. */
  method FindAll<V, M, E>(r: GormRepository<V, M, E>) returns (entities: seq<E>, err: Option<DbError>)
    ensures var found := r.db.Find(-1, -1);
            && (found.Failure? ==> entities == [] && err == Some(found.error))
            && (found.Success? ==> err == None && ConvertedFrom(entities, found.value, r.toEntity))
  {
    entities, err := FindWithLimit(r, -1, -1, []);
    assert Prewarmed(r, []) == r.db;
  }

  /** Count: the number of rows matching the specifications; 0 with the
      error when the count fails. */
  method Count<V, M, E>(r: GormRepository<V, M, E>, specs: seq<Specification<V>>)
    returns (i: int, err: Option<DbError>)
    ensures var counted := Prewarmed(r, specs).Count();
            && (counted.Failure? ==> i == 0 && err == Some(counted.error))
            && (counted.Success? ==> i == counted.value && err == None)
  {
    var dbPrewarm := GetPreWarmDbForSelect(r, specs);
    var counted := dbPrewarm.Count();
    if counted.Failure? {
      return 0, Some(counted.error);
    }
    i, err := counted.value, None;
  }

  /** The page size actually used: math.Max(1, size), at least 1 and equal
      to the request when that is already at least 1. */
  function EffectiveSize(size: int): (limit: int)
    ensures limit >= 1 && limit >= size
    ensures limit == size || limit == 1
  {
    if size < 1 then 1 else size
  }

  /** Whether FindPagedWithLimit runs a count query. */
  predicate ShouldCount(cfg: PageConfig)
  {
    cfg.forceCount || (cfg.page == 0 && !cfg.ignoreCount)
  }

  /** FindPagedWithLimit. Besides the page result and the error, the ghost
      trace `issued` lists the statements sent to the database, in order.
      - a count is made iff ForceCount, or Page == 0 and not IgnoreCount;
      - a failed count returns at once: Count 0, no data, Page echoed;
      - otherwise Count is ceil(rows / EffectiveSize(Size)) when counted and
        0 when not, and the data query uses LIMIT EffectiveSize(Size) and
        OFFSET Page (the raw page number);
      - a failed data query leaves Data empty but keeps Count. */
  method FindPagedWithLimit<V, M, E>(r: GormRepository<V, M, E>, cfg: PageConfig, specs: seq<Specification<V>>)
    returns (rs: PageResult<M>, err: Option<DbError>, ghost issued: seq<Statement<V>>)
    ensures rs.page == cfg.page
    ensures var q := Prewarmed(r, specs).clauses;
            CountStatement(q) in issued <==> cfg.forceCount || (cfg.page == 0 && !cfg.ignoreCount)
    ensures var p := Prewarmed(r, specs);
            ShouldCount(cfg) && p.Count().Failure? ==>
              && issued == [CountStatement(p.clauses)]
              && rs.data == [] && rs.count == 0
              && err == Some(p.Count().error)
    ensures var p := Prewarmed(r, specs);
            var size := EffectiveSize(cfg.size);
            !(ShouldCount(cfg) && p.Count().Failure?) ==>
              && issued == (if ShouldCount(cfg) then [CountStatement(p.clauses)] else [])
                           + [FindStatement(p.clauses, size, cfg.page)]
              && rs.count == (if ShouldCount(cfg) then Utils.CeilDiv(p.Count().value, size) else 0)
              && (p.Find(size, cfg.page).Failure? ==> rs.data == [] && err == Some(p.Find(size, cfg.page).error))
              && (p.Find(size, cfg.page).Success? ==> rs.data == p.Find(size, cfg.page).value && err == None)
  {
    var dbPrewarm := GetPreWarmDbForSelect(r, specs);
    issued := [];

    rs := PageResult([], 0, cfg.page);

    var minLimit := EffectiveSize(cfg.size);
    var shouldCount := cfg.forceCount || (cfg.page == 0 && !cfg.ignoreCount);

    if shouldCount {
      issued := issued + [CountStatement(dbPrewarm.clauses)];
      var elementCount := dbPrewarm.Count();
      if elementCount.Failure? {
        return rs, Some(elementCount.error), issued;
      }
      rs := rs.(count := Utils.CeilDiv(elementCount.value, minLimit));
    }

    issued := issued + [FindStatement(dbPrewarm.clauses, minLimit, cfg.page)];
    var models := dbPrewarm.Find(minLimit, cfg.page);
    if models.Failure? {
      return rs, Some(models.error), issued;
    }
    rs := rs.(data := models.value);
    err := None;
  }

  /** The rows a table holding `rows` (in its default order) returns for a
      LIMIT/OFFSET query, a negative limit or offset meaning none. */
  function Window<M>(rows: seq<M>, limit: int, offset: int): (w: seq<M>)
    ensures limit >= 0 ==> |w| <= limit
    ensures var start := if offset < 0 then 0 else offset;
            forall k :: 0 <= k < |w| ==> start + k < |rows| && w[k] == rows[start + k]
  {
    var start := if offset < 0 then 0 else if offset > |rows| then |rows| else offset;
    var end := if limit < 0 || start + limit > |rows| then |rows| else start + limit;
    rows[start..end]
  }

  /** With OFFSET = Page, the data queries FindPagedWithLimit issues for
      two consecutive pages of a table-backed database share rows whenever
      the effective page size is at least 2: the second row of page p is the
      first row of page p + 1. */
  lemma AdjacentPagesOverlap<V, M, E>(r: GormRepository<V, M, E>, rows: seq<M>, specs: seq<Specification<V>>, cfg: PageConfig)
    requires forall c, l, o :: r.db.find(c, l, o) == Success(Window(rows, l, o))
    requires cfg.size >= 2 && cfg.page >= 0 && cfg.page + 2 <= |rows|
    ensures var p := Prewarmed(r, specs);
            var size := EffectiveSize(cfg.size);
            var here := p.Find(size, cfg.page);
            var next := p.Find(size, cfg.page + 1);
            && here.Success? && next.Success?
            && |here.value| >= 2 && |next.value| >= 1
            && here.value[1] == next.value[0]
  {
    var p := Prewarmed(r, specs);
    var size := EffectiveSize(cfg.size);
    assert p.Find(size, cfg.page) == r.db.find(p.clauses, size, cfg.page);
    assert p.Find(size, cfg.page + 1) == r.db.find(p.clauses, size, cfg.page + 1);
  }
}
