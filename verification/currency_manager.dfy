/** `CurrencyManager`: the cached currency list, lookup by code, the main
    currency and its repair, `setMainCurrency`, and the locale fallback.

    The manager's objects are the rows of the currency table: a change to one
    of them is visible in the cached list at once and reaches the table at the
    next flush, and every mutating path here ends in a flush. The model keeps
    both views: `store` is the table, `cache` the list the manager holds, and a
    mutation updates the cached entry and the table row with the same `id`. */
module Manager {
  import opened Wrappers
  import opened Codes
  import opened Currencies

  datatype Registry = Registry(store: seq<Currency>, cache: seq<Currency>)

  /** The fallback table from a normalised locale to a currency code. */
  const LocaleToCurrency: map<string, string> :=
    map["cs" := "CZK", "sk" := "EUR", "en" := "EUR", "de" := "EUR"]

  predicate UniqueIds(s: seq<Currency>) {
    forall i, j :: 0 <= i < j < |s| ==> s[i].id != s[j].id
  }

  function Ids(s: seq<Currency>): set<nat> {
    set i | 0 <= i < |s| :: s[i].id
  }

  // ------------------------------------------------------------ searching

  function IsMain(c: Currency): bool {
    c.main
  }

  function CodeIs(code: string): Currency -> bool {
    (c: Currency) => c.code == code
  }

  function LocaleIs(locale: string): Currency -> bool {
    (c: Currency) => c.locale == Some(locale)
  }

  /** The first index at or after `from` whose entry satisfies `p`. */
  function FindFrom(list: seq<Currency>, p: Currency -> bool, from: nat): (r: Option<nat>)
    requires from <= |list|
    ensures r.Some? ==> from <= r.value < |list| && p(list[r.value])
    ensures r.Some? ==> forall i :: from <= i < r.value ==> !p(list[i])
    ensures r.None? ==> forall i :: from <= i < |list| ==> !p(list[i])
    decreases |list| - from
  {
    if from == |list| then None
    else if p(list[from]) then Some(from)
    else FindFrom(list, p, from + 1)
  }

  /** The first entry satisfying `p`, as the source's `foreach ... return` loops find it. */
  function Find(list: seq<Currency>, p: Currency -> bool): (r: Option<nat>)
    ensures r.Some? ==> r.value < |list| && p(list[r.value])
    ensures r.Some? ==> forall i :: 0 <= i < r.value ==> !p(list[i])
    ensures r.None? ==> forall i :: 0 <= i < |list| ==> !p(list[i])
  {
    FindFrom(list, p, 0)
  }

  // ------------------------------------------------------------ loading

  /** The rows whose main flag is `main`, in table order. */
  function WithFlag(rows: seq<Currency>, main: bool): (r: seq<Currency>)
    ensures forall i :: 0 <= i < |r| ==> r[i].main == main
    ensures forall c :: c in r <==> c in rows && c.main == main
  {
    if rows == [] then []
    else (if rows[0].main == main then [rows[0]] else []) + WithFlag(rows[1..], main)
  }

  /** `orderBy('currency.main', 'DESC')`: main rows first. Rows with equal flags
      keep table order (the database does not promise one). */
  function MainFirst(rows: seq<Currency>): (r: seq<Currency>)
    ensures forall i, j :: 0 <= i < j < |r| && r[j].main ==> r[i].main
  {
    WithFlag(rows, true) + WithFlag(rows, false)
  }

  /** `$return[$currency->getId()] = $currency`: a later row with an id already
      seen replaces the earlier one in its place. */
  function Upsert(acc: seq<Currency>, c: Currency): (r: seq<Currency>)
    requires UniqueIds(acc)
    ensures UniqueIds(r)
    ensures Ids(r) == Ids(acc) + {c.id}
    ensures c in r
  {
    match Find(acc, (x: Currency) => x.id == c.id)
    case Some(i) =>
      var r := acc[i := c];
      assert forall j :: 0 <= j < |acc| ==> r[j].id == acc[j].id;
      assert Ids(r) == Ids(acc);
      r
    case None =>
      var r := acc + [c];
      assert Ids(r) == Ids(acc) + {c.id} by {
        assert forall j :: 0 <= j < |acc| ==> r[j] == acc[j];
        assert r[|acc|] == c;
      }
      r
  }

  /** The array keyed by id, in first-seen order. */
  function IndexById(rows: seq<Currency>): (r: seq<Currency>)
    ensures UniqueIds(r)
    ensures Ids(r) == Ids(rows)
    decreases |rows|
  {
    if rows == [] then []
    else
      var init := rows[..|rows| - 1];
      assert Ids(rows) == Ids(init) + {rows[|rows| - 1].id} by {
        assert forall j :: 0 <= j < |init| ==> rows[j] == init[j];
      }
      Upsert(IndexById(init), rows[|rows| - 1])
  }

  /** The list `getCurrencies` builds from the table. */
  function Load(store: seq<Currency>): (r: seq<Currency>)
    ensures UniqueIds(r)
  {
    IndexById(MainFirst(store))
  }

  /** `getCurrencies`: the cached list once it is non-empty; otherwise the
      table is queried again and the result becomes the cache. */
  function GetCurrencies(reg: Registry): (r: (seq<Currency>, Registry))
    ensures reg.cache != [] ==> r == (reg.cache, reg)
    ensures reg.cache == [] ==> r.0 == Load(reg.store)
    ensures r.1 == reg.(cache := r.0)
  {
    if reg.cache != [] then (reg.cache, reg)
    else
      var list := Load(reg.store);
      (list, reg.(cache := list))
  }

  // ------------------------------------------------------------ updates by id

  /** Set the main flag of every row whose id is in `ids`. */
  function MarkWhere(rows: seq<Currency>, ids: set<nat>, main: bool): (r: seq<Currency>)
    ensures |r| == |rows|
    ensures forall j :: 0 <= j < |rows| ==>
      r[j] == (if rows[j].id in ids then rows[j].(main := main) else rows[j])
  {
    seq(|rows|, j requires 0 <= j < |rows| =>
      if rows[j].id in ids then rows[j].(main := main) else rows[j])
  }

  /** Store `locale` on every entry, cached or stored, with the given id. */
  function WithLocale(reg: Registry, id: nat, locale: Option<string>): (r: Registry)
    ensures |r.cache| == |reg.cache| && |r.store| == |reg.store|
    ensures forall i :: 0 <= i < |reg.cache| ==>
      r.cache[i] == (if reg.cache[i].id == id then reg.cache[i].(locale := locale) else reg.cache[i])
    ensures forall j :: 0 <= j < |reg.store| ==>
      r.store[j] == (if reg.store[j].id == id then reg.store[j].(locale := locale) else reg.store[j])
  {
    Registry(
      seq(|reg.store|, j requires 0 <= j < |reg.store| =>
        if reg.store[j].id == id then reg.store[j].(locale := locale) else reg.store[j]),
      seq(|reg.cache|, i requires 0 <= i < |reg.cache| =>
        if reg.cache[i].id == id then reg.cache[i].(locale := locale) else reg.cache[i]))
  }

  function MaxId(rows: seq<Currency>): (m: nat)
    ensures forall j :: 0 <= j < |rows| ==> rows[j].id <= m
  {
    if rows == [] then 0
    else
      var rest := MaxId(rows[1..]);
      if rows[0].id > rest then rows[0].id else rest
  }

  /** The identifier the table assigns to the next inserted row. */
  function NextId(rows: seq<Currency>): (id: nat)
    ensures id !in Ids(rows)
  {
    MaxId(rows) + 1
  }

  // ------------------------------------------------------------ operations

  /** The first entry carrying `code`, or `CurrencyNotFound`. */
  function FindCode(list: seq<Currency>, code: string): (r: Result<Currency>)
    ensures r.Ok? <==> exists i :: 0 <= i < |list| && list[i].code == code
    ensures r.Ok? ==> r.value.code == code
    ensures r.Ok? ==> exists i :: 0 <= i < |list| && list[i] == r.value
                        && forall j :: 0 <= j < i ==> list[j].code != code
    ensures r.Err? ==> r.error == CurrencyNotFound(code)
  {
    match Find(list, CodeIs(code))
    case Some(i) => Ok(list[i])
    case None => Err(CurrencyNotFound(code))
  }

  /** `getCurrency`: a record is returned as it is and nothing is loaded; a
      string is normalised and validated, then the first cached entry with that
      code is returned, or `CurrencyNotFound`. Every failure is an
      InvalidArgumentException. */
  function GetCurrency(reg: Registry, arg: CurrencyArg): (r: (Result<Currency>, Registry))
    ensures arg.Entity? ==> r == (Ok(arg.currency), reg)
    ensures arg.Code? && ValidateCode(arg.code).Fail? ==> r == (Err(ValidateCode(arg.code).error), reg)
    ensures arg.Code? && ValidateCode(arg.code).Pass? ==>
      r == (FindCode(GetCurrencies(reg).0, Normalize(arg.code)), GetCurrencies(reg).1)
    ensures r.0.Err? ==> r.0.error.CodeRequired? || r.0.error.CodeMalformed? || r.0.error.CurrencyNotFound?
  {
    match arg
    case Entity(c) => (Ok(c), reg)
    case Code(s) =>
      var n := Normalize(s);
      ValidateNormalized(s);
      match ValidateCode(n)
      case Fail(e) => (Err(e), reg)
      case Pass =>
        var loaded := GetCurrencies(reg);
        (FindCode(loaded.0, n), loaded.1)
  }

  /** `createCurrency`: construct, insert into the table, return. The cached
      list is NOT extended. */
  function CreateCurrency(reg: Registry, code: string, symbol: string): (r: (Result<Currency>, Registry))
    ensures r.0.Ok? <==> ValidateCode(code).Pass?
    ensures r.0.Ok? ==> r.1 == Registry(reg.store + [r.0.value], reg.cache)
    ensures r.0.Ok? ==> r.0.value.id !in Ids(reg.store) && Valid(r.0.value) && !r.0.value.main
                        && r.0.value.code == Normalize(code) && r.0.value.symbol == symbol
    ensures r.0.Err? ==> r.1 == reg
  {
    match NewCurrency(NextId(reg.store), code, symbol, 1)
    case Err(e) => (Err(e), reg)
    case Ok(c) => (Ok(c), Registry(reg.store + [c], reg.cache))
  }

  /** The ids of the entries repair demotes: every main entry but the first. */
  function ExtraMainIds(list: seq<Currency>, keep: nat): set<nat> {
    set i | 0 <= i < |list| && i != keep && list[i].main :: list[i].id
  }

  /** Repair when entry `k` is the first main one: it stays main, every other
      entry loses the flag. */
  function KeepMain(reg: Registry, k: nat): (r: (Currency, Registry))
    requires k < |reg.cache| && reg.cache[k].main
    ensures r.0 == reg.cache[k] && r.0.main
    ensures |r.1.cache| == |reg.cache|
    ensures forall i :: 0 <= i < |reg.cache| ==>
      r.1.cache[i] == (if i == k then reg.cache[i] else reg.cache[i].(main := false))
    ensures r.1.store == MarkWhere(reg.store, ExtraMainIds(reg.cache, k), false)
  {
    var list := reg.cache;
    var cache := seq(|list|, i requires 0 <= i < |list| => if i == k then list[i] else list[i].(main := false));
    (list[k], Registry(MarkWhere(reg.store, ExtraMainIds(list, k), false), cache))
  }

  /** Repair when no entry is main: the first entry is promoted. */
  function PromoteFirst(reg: Registry): (r: (Currency, Registry))
    requires reg.cache != []
    ensures r.0 == reg.cache[0].(main := true)
    ensures r.1 == Registry(MarkWhere(reg.store, {reg.cache[0].id}, true), reg.cache[0 := r.0])
  {
    var promoted := reg.cache[0].(main := true);
    (promoted, Registry(MarkWhere(reg.store, {reg.cache[0].id}, true), reg.cache[0 := promoted]))
  }

  /** Repair of an empty list: `createCurrency('USD', '$')`, flagged main, locale
      "en"; the inserted row is flushed again with its flag and locale, and the
      cached list is left as it is. */
  function CreateMain(reg: Registry, norm: string -> string): (r: (Currency, Registry))
    ensures r.0.code == "USD" && r.0.symbol == "$" && r.0.main && r.0.locale == Some(norm("en"))
    ensures Valid(r.0) && r.0.id !in Ids(reg.store)
    ensures r.1 == Registry(reg.store + [r.0], reg.cache)
  {
    NewCurrencyOfWord(NextId(reg.store), "USD", "$");
    var created := CreateCurrency(reg, "USD", "$").0.value;
    SettersKeepValid(created, "", "", 1, true, None, norm);
    SettersKeepValid(SetMain(created, true), "", "", 1, true, Some("en"), norm);
    var usd := SetLocale(SetMain(created, true), Some("en"), norm);
    (usd, Registry(reg.store + [usd], reg.cache))
  }

  /** `fixCurrenciesAndReturnMain`: keep the first main entry and demote the
      others; with no main entry promote the first; with no entry at all create
      USD / "$" with locale "en" as main. */
  function Repair(reg: Registry, norm: string -> string): (r: (Currency, Registry))
    ensures r.0.main
    ensures var list := GetCurrencies(reg).0;
      && (list == [] ==> r.0.code == "USD" && r.0.symbol == "$" && r.0.locale == Some(norm("en")))
      && (list != [] ==> exists k :: 0 <= k < |list| && r.0 == list[k].(main := true))
      && (list != [] && (forall i :: 0 <= i < |list| ==> !list[i].main) ==> r.0 == list[0].(main := true))
      && (forall k :: 0 <= k < |list| && list[k].main && (forall i :: 0 <= i < k ==> !list[i].main)
            ==> r.0 == list[k])
  {
    var loaded := GetCurrencies(reg);
    match Find(loaded.0, IsMain)
    case Some(k) => KeepMain(loaded.1, k)
    case None => if |loaded.0| > 0 then PromoteFirst(loaded.1) else CreateMain(loaded.1, norm)
  }

  /** `getMainCurrency`: the first main entry of the list, or the repair's result. */
  function GetMainCurrency(reg: Registry, norm: string -> string): (r: (Currency, Registry))
    ensures var list := GetCurrencies(reg).0;
      forall k :: 0 <= k < |list| && list[k].main && (forall i :: 0 <= i < k ==> !list[i].main)
        ==> r == (list[k], GetCurrencies(reg).1)
    ensures r.0.main
    ensures var list := GetCurrencies(reg).0;
      (forall i :: 0 <= i < |list| ==> !list[i].main) ==> r == Repair(GetCurrencies(reg).1, norm)
  {
    var loaded := GetCurrencies(reg);
    MainOf(loaded.0, loaded.1, norm)
  }

  /** The choice `getMainCurrency` makes on a loaded list. */
  function MainOf(list: seq<Currency>, loaded: Registry, norm: string -> string): (r: (Currency, Registry))
    ensures forall k :: 0 <= k < |list| && list[k].main && (forall i :: 0 <= i < k ==> !list[i].main)
                        ==> r == (list[k], loaded)
    ensures r.0.main
    ensures (forall i :: 0 <= i < |list| ==> !list[i].main) ==> r == Repair(loaded, norm)
  {
    match Find(list, IsMain)
    case Some(k) => (list[k], loaded)
    case None => Repair(loaded, norm)
  }

  /** `post` is `pre` with every listed entry's flag cleared and `t`'s set: a
      listed entry is main exactly when it is `t`, `t`'s table row is main, the
      other listed rows are not, and every other field and row is as before. */
  predicate MarkedOnly(pre: Registry, t: Currency, post: Registry) {
    && |post.cache| == |pre.cache| && |post.store| == |pre.store|
    && (forall i :: 0 <= i < |pre.cache| ==>
          post.cache[i] == pre.cache[i].(main := pre.cache[i].id == t.id))
    && (forall j :: 0 <= j < |pre.store| ==>
          post.store[j] == (if pre.store[j].id == t.id then pre.store[j].(main := true)
                            else if pre.store[j].id in Ids(pre.cache) then pre.store[j].(main := false)
                            else pre.store[j]))
  }

  /** Clear the flag on every cached entry, then set it on `t`; the table rows
      follow by id. */
  function MarkOnly(reg: Registry, t: Currency): (r: Registry)
    ensures MarkedOnly(reg, t, r)
  {
    var listed := Ids(reg.cache);
    var store := seq(|reg.store|, j requires 0 <= j < |reg.store| =>
      var c := reg.store[j];
      if c.id == t.id then c.(main := true) else if c.id in listed then c.(main := false) else c);
    var cache := seq(|reg.cache|, i requires 0 <= i < |reg.cache| =>
      reg.cache[i].(main := reg.cache[i].id == t.id));
    Registry(store, cache)
  }

  /** `setMainCurrency`: resolve a string through `getCurrency`, clear the flag
      on every listed currency, then set it on the chosen one; all in one flush. */
  function SetMainCurrency(reg: Registry, arg: CurrencyArg): (r: (Outcome, Registry))
    ensures GetCurrency(reg, arg).0.Err? ==> r == (Fail(GetCurrency(reg, arg).0.error), GetCurrency(reg, arg).1)
    ensures r.0.Pass? ==> GetCurrency(reg, arg).0.Ok?
    ensures r.0.Pass? ==> var t := GetCurrency(reg, arg).0.value;
      forall i :: 0 <= i < |r.1.cache| ==> (r.1.cache[i].main <==> r.1.cache[i].id == t.id)
    ensures r.0.Pass? ==>
      MarkedOnly(GetCurrencies(GetCurrency(reg, arg).1).1, GetCurrency(reg, arg).0.value, r.1)
  {
    var got := GetCurrency(reg, arg);
    if got.0.Err? then (Fail(got.0.error), got.1)
    else (Pass, MarkOnly(GetCurrencies(got.1).1, got.0.value))
  }

  /** `getByLocale`: the first entry whose locale equals the normalised locale;
      else the table's currency for that locale, which gets the locale written
      over whatever it had; else (that currency is missing) the main currency,
      which gets the locale only when it had none. */
  function GetByLocale(reg: Registry, locale: string, norm: string -> string): (r: (Result<Currency>, Registry))
    ensures r.0.Err? ==> r.0.error == LocaleUnknown(norm(locale)) || !r.0.error.IsInvalidArgument()
    ensures r.0.Err? && r.0.error.LocaleUnknown? ==> norm(locale) !in LocaleToCurrency
    ensures r.0.Ok? ==> r.0.value.locale.Some?
    ensures var list := GetCurrencies(reg).0;
      (exists i :: 0 <= i < |list| && list[i].locale == Some(norm(locale))) ==>
        && r.0.Ok? && r.0.value in list && r.0.value.locale == Some(norm(locale))
        && r.1 == GetCurrencies(reg).1
  {
    var l := norm(locale);
    var loaded := GetCurrencies(reg);
    match Find(loaded.0, LocaleIs(l))
    case Some(i) => (Ok(loaded.0[i]), loaded.1)
    case None =>
      if l !in LocaleToCurrency then (Err(LocaleUnknown(l)), loaded.1)
      else
        var got := GetCurrency(loaded.1, Code(LocaleToCurrency[l]));
        match got.0
        case Ok(found) =>
          var c := SetLocale(found, Some(l), norm);
          (Ok(c), WithLocale(got.1, c.id, c.locale))
        case Err(e) =>
          if e.IsInvalidArgument() then
            var main := GetMainCurrency(got.1, norm);
            if main.0.locale.None? then
              var c := SetLocale(main.0, Some(l), norm);
              (Ok(c), WithLocale(main.1, c.id, c.locale))
            else (Ok(main.0), main.1)
          else (Err(e), got.1)
  }

  // ------------------------------------------------------------ lemmas

  /** Splitting by flag loses and duplicates nothing. */
  lemma {:induction false} WithFlagSplit(rows: seq<Currency>)
    ensures multiset(WithFlag(rows, true)) + multiset(WithFlag(rows, false)) == multiset(rows)
  {
    if rows != [] {
      WithFlagSplit(rows[1..]);
      assert rows == [rows[0]] + rows[1..];
    }
  }

  /** A flag-filtered table with distinct ids has distinct ids. */
  lemma {:induction false} WithFlagUnique(rows: seq<Currency>, main: bool)
    requires UniqueIds(rows)
    ensures UniqueIds(WithFlag(rows, main))
  {
    if rows != [] {
      var tail := rows[1..];
      assert UniqueIds(tail);
      WithFlagUnique(tail, main);
      var rest := WithFlag(tail, main);
      forall j | 0 <= j < |rest|
        ensures rest[j].id != rows[0].id
      {
        assert rest[j] in tail;
        var q :| 0 <= q < |tail| && tail[q] == rest[j];
        assert rows[q + 1] == rest[j];
      }
    }
  }

  /** With distinct ids in the table, the main-first order has distinct ids. */
  lemma MainFirstUnique(rows: seq<Currency>)
    requires UniqueIds(rows)
    ensures UniqueIds(MainFirst(rows))
  {
    var mains := WithFlag(rows, true);
    var others := WithFlag(rows, false);
    WithFlagUnique(rows, true);
    WithFlagUnique(rows, false);
    var r := mains + others;
    forall i, j | 0 <= i < j < |r|
      ensures r[i].id != r[j].id
    {
      if j >= |mains| && i < |mains| {
        assert r[i] in rows && r[i].main;
        assert r[j] in rows && !r[j].main;
        var p :| 0 <= p < |rows| && rows[p] == r[i];
        var q :| 0 <= q < |rows| && rows[q] == r[j];
        assert p != q;
      }
    }
  }

  /** Keying an id-distinct list by id changes nothing. */
  lemma {:induction false} IndexByIdOfUnique(rows: seq<Currency>)
    requires UniqueIds(rows)
    ensures IndexById(rows) == rows
    decreases |rows|
  {
    if rows != [] {
      var init := rows[..|rows| - 1];
      var last := rows[|rows| - 1];
      IndexByIdOfUnique(init);
      assert forall j :: 0 <= j < |init| ==> init[j].id != last.id;
      assert Find(init, (x: Currency) => x.id == last.id).None?;
      assert init + [last] == rows;
    }
  }

  /** On a table with distinct ids (its primary key), the loaded list is the
      table itself, main rows first: a permutation that loses no row. */
  lemma LoadOfUniqueStore(store: seq<Currency>)
    requires UniqueIds(store)
    ensures Load(store) == MainFirst(store)
    ensures multiset(Load(store)) == multiset(store)
    ensures forall i, j :: 0 <= i < j < |Load(store)| && Load(store)[j].main ==> Load(store)[i].main
  {
    MainFirstUnique(store);
    IndexByIdOfUnique(MainFirst(store));
    WithFlagSplit(store);
  }

  /** The list is empty exactly when the table is. */
  lemma LoadEmpty(store: seq<Currency>)
    ensures Load(store) == [] <==> store == []
  {
    if store != [] {
      assert store[0].id in Ids(store);
      assert Ids(Load(store)) == Ids(MainFirst(store));
      WithFlagSplit(store);
      assert store[0] in multiset(store);
      assert MainFirst(store) != [];
    }
  }

  /** Repair on a non-empty list leaves exactly one main entry in the list and
      returns it: the first main-flagged entry if there was one, otherwise the
      promoted first entry. */
  lemma RepairLeavesOneMain(reg: Registry, norm: string -> string)
    requires GetCurrencies(reg).0 != []
    ensures var list := GetCurrencies(reg).0;
      var (c, reg1) := Repair(reg, norm);
      var k := Find(list, IsMain).GetOr(0);
      k < |reg1.cache| && reg1.cache[k] == c && c.main
      && (forall i :: 0 <= i < |reg1.cache| && i != k ==> !reg1.cache[i].main)
      && (Find(list, IsMain).Some? ==> c == list[k])
      && (Find(list, IsMain).None? ==> c == list[0].(main := true))
  {
    var list := GetCurrencies(reg).0;
    assert Find(list, IsMain) == Find(list, IsMain);
  }

  /** The manager's list is empty only when nothing is cached and the table is empty. */
  lemma EmptyListEmptyTable(reg: Registry)
    requires GetCurrencies(reg).0 == []
    ensures reg == Registry([], [])
  {
    LoadEmpty(reg.store);
  }

  /** Repair on an empty table creates USD / "$" flagged main with the locale
      "en", appends it to the table and leaves the cached list empty. */
  lemma RepairOfEmptyTable(reg: Registry, norm: string -> string)
    requires GetCurrencies(reg).0 == []
    ensures reg == Registry([], [])
    ensures var (c, reg1) := Repair(reg, norm);
      c.code == "USD" && c.symbol == "$" && c.main && c.locale == Some(norm("en"))
      && Valid(c) && reg1 == Registry([c], [])
  {
    EmptyListEmptyTable(reg);
    assert GetCurrencies(reg) == ([], reg);
  }

  /** A second repair returns the same currency and flips no flag in the table;
      the list stays the same too unless the first run created the currency,
      in which case the second run only loads it. */
  lemma RepairIdempotent(reg: Registry, norm: string -> string)
    ensures var once := Repair(reg, norm);
      var twice := Repair(once.1, norm);
      twice.0 == once.0 && twice.1.store == once.1.store
      && (GetCurrencies(reg).0 != [] ==> twice.1 == once.1)
  {
    if GetCurrencies(reg).0 == [] {
      RepairTwiceOnEmpty(reg, norm);
    } else {
      RepairTwiceOnLoaded(reg, norm);
    }
  }

  /** The USD a repair created is, on the next repair, loaded and kept. */
  lemma RepairTwiceOnEmpty(reg: Registry, norm: string -> string)
    requires GetCurrencies(reg).0 == []
    ensures var once := Repair(reg, norm);
      var twice := Repair(once.1, norm);
      twice.0 == once.0 && twice.1.store == once.1.store
  {
    RepairOfEmptyTable(reg, norm);
    var once := Repair(reg, norm);
    var c1 := once.0;
    var single := [c1];
    assert once.1 == Registry(single, []);
    LoadSingleMain(c1);
    var loaded := GetCurrencies(once.1);
    assert loaded.0 == single;
    assert Find(single, IsMain) == Some(0);
    assert Repair(once.1, norm) == KeepMain(loaded.1, 0);
    assert ExtraMainIds(single, 0) == {};
    MarkNothing(single);
  }

  lemma LoadSingleMain(c: Currency)
    requires c.main
    ensures Load([c]) == [c]
  {
    assert WithFlag([c], true) == [c];
    assert WithFlag([c], false) == [];
    assert MainFirst([c]) == [c];
    IndexByIdOfUnique([c]);
  }

  /** Marking no id changes no row. */
  lemma MarkNothing(rows: seq<Currency>)
    ensures MarkWhere(rows, {}, false) == rows
  {
  }

  /** A repair of a non-empty list leaves one main entry, which the next
      repair finds and keeps without writing anything. */
  lemma RepairTwiceOnLoaded(reg: Registry, norm: string -> string)
    requires GetCurrencies(reg).0 != []
    ensures var once := Repair(reg, norm);
      Repair(once.1, norm) == once
  {
    RepairLeavesOneMain(reg, norm);
    var once := Repair(reg, norm);
    RepairOfSoleMain(once.1, Find(GetCurrencies(reg).0, IsMain).GetOr(0), norm);
  }

  /** A cached list whose only main entry is `k` is left as it is by repair. */
  lemma RepairOfSoleMain(reg: Registry, k: nat, norm: string -> string)
    requires k < |reg.cache| && reg.cache[k].main
    requires forall i :: 0 <= i < |reg.cache| && i != k ==> !reg.cache[i].main
    ensures Repair(reg, norm) == (reg.cache[k], reg)
  {
    assert GetCurrencies(reg) == (reg.cache, reg);
    assert Find(reg.cache, IsMain) == Some(k);
    KeepSoleMain(reg, k);
  }

  lemma KeepSoleMain(reg: Registry, k: nat)
    requires k < |reg.cache| && reg.cache[k].main
    requires forall i :: 0 <= i < |reg.cache| && i != k ==> !reg.cache[i].main
    ensures KeepMain(reg, k) == (reg.cache[k], reg)
  {
    assert ExtraMainIds(reg.cache, k) == {};
    MarkNothing(reg.store);
    assert KeepMain(reg, k).1.cache == reg.cache;
  }

  /** Two lists on which `p` agrees position by position have the same first match. */
  lemma {:induction false} FindFromAgree(a: seq<Currency>, b: seq<Currency>, p: Currency -> bool, from: nat)
    requires |a| == |b| && from <= |a|
    requires forall i :: 0 <= i < |a| ==> p(a[i]) == p(b[i])
    ensures FindFrom(a, p, from) == FindFrom(b, p, from)
    decreases |a| - from
  {
    if from < |a| {
      FindFromAgree(a, b, p, from + 1);
    }
  }

  /** Marking the same identity twice is marking it once. */
  lemma MarkOnlyTwice(reg: Registry, t: Currency, t2: Currency)
    requires t2.id == t.id
    ensures MarkOnly(MarkOnly(reg, t), t2) == MarkOnly(reg, t)
  {
    var once := MarkOnly(reg, t);
    assert Ids(once.cache) == Ids(reg.cache) by {
      assert forall i :: 0 <= i < |reg.cache| ==> once.cache[i].id == reg.cache[i].id;
    }
    var twice := MarkOnly(once, t2);
    assert twice.cache == once.cache;
    assert twice.store == once.store;
  }

  /** `setMainCurrency` twice with the same argument gives the state of once. */
  lemma SetMainIdempotent(reg: Registry, arg: CurrencyArg)
    requires SetMainCurrency(reg, arg).0.Pass?
    ensures SetMainCurrency(SetMainCurrency(reg, arg).1, arg) == SetMainCurrency(reg, arg)
  {
    var got := GetCurrency(reg, arg);
    var loaded := GetCurrencies(got.1).1;
    var once := MarkOnly(loaded, got.0.value);
    assert SetMainCurrency(reg, arg) == (Pass, once);
    RelookupAfterMark(reg, arg);
    var again := GetCurrency(once, arg);
    assert SetMainCurrency(once, arg) == (Pass, MarkOnly(GetCurrencies(again.1).1, again.0.value));
    MarkOnlyTwice(loaded, got.0.value, again.0.value);
  }

  /** After `setMainCurrency`, looking the same argument up again finds the
      currency of the same identity and leaves the registry loaded as it is. */
  lemma RelookupAfterMark(reg: Registry, arg: CurrencyArg)
    requires SetMainCurrency(reg, arg).0.Pass?
    ensures var once := SetMainCurrency(reg, arg).1;
      var again := GetCurrency(once, arg);
      again.0.Ok? && again.0.value.id == GetCurrency(reg, arg).0.value.id
      && GetCurrencies(again.1).1 == once
  {
    var got := GetCurrency(reg, arg);
    var loaded := GetCurrencies(got.1).1;
    assert SetMainCurrency(reg, arg).1 == MarkOnly(loaded, got.0.value);
    if arg.Code? {
      assert loaded == got.1;
      RelookupCodeAfterMark(loaded, arg.code, got.0.value);
    } else {
      RelookupRecordAfterMark(got.1, arg.currency);
    }
  }

  lemma RelookupCodeAfterMark(loaded: Registry, code: string, t: Currency)
    requires ValidateCode(code).Pass?
    requires FindCode(loaded.cache, Normalize(code)) == Ok(t)
    ensures var once := MarkOnly(loaded, t);
      var again := GetCurrency(once, Code(code));
      again.0.Ok? && again.0.value.id == t.id && GetCurrencies(again.1).1 == once
  {
    var list := loaded.cache;
    var once := MarkOnly(loaded, t);
    assert list != [];
    assert forall i :: 0 <= i < |list| ==> once.cache[i] == list[i].(main := list[i].id == t.id);
    FindFromAgree(list, once.cache, CodeIs(Normalize(code)), 0);
    assert GetCurrencies(once) == (once.cache, once);
    assert GetCurrency(once, Code(code)) == (FindCode(once.cache, Normalize(code)), once);
  }

  lemma RelookupRecordAfterMark(reg: Registry, t: Currency)
    ensures var once := MarkOnly(GetCurrencies(reg).1, t);
      GetCurrency(once, Entity(t)) == (Ok(t), once) && GetCurrencies(once).1 == once
  {
    var loaded := GetCurrencies(reg).1;
    var once := MarkOnly(loaded, t);
    if loaded.cache != [] {
      assert GetCurrencies(once) == (once.cache, once);
    } else {
      EmptyListEmptyTable(reg);
    }
  }

  /** After `setMainCurrency` by code on a list with distinct ids, exactly one
      listed currency is main: the one carrying that code. */
  lemma SetMainByCodeLeavesOneMain(reg: Registry, code: string)
    requires UniqueIds(reg.cache)
    requires SetMainCurrency(reg, Code(code)).0.Pass?
    ensures var c := SetMainCurrency(reg, Code(code)).1.cache;
      exists k :: 0 <= k < |c| && c[k].main && c[k].code == Normalize(code)
        && forall i :: 0 <= i < |c| && i != k ==> !c[i].main
  {
    var got := GetCurrency(reg, Code(code));
    SetMainByCodeMarks(reg, code);
    CodeLookupFacts(reg, code);
    var t := got.0.value;
    var pre := GetCurrencies(got.1).1;
    var k :| 0 <= k < |pre.cache| && pre.cache[k] == t;
    MarkOnlyLeavesOne(pre, t, k, SetMainCurrency(reg, Code(code)).1);
  }

  /** A successful `setMainCurrency` by code found its currency and marked it
      on the loaded list, whose ids stay distinct. */
  lemma SetMainByCodeMarks(reg: Registry, code: string)
    requires UniqueIds(reg.cache)
    requires SetMainCurrency(reg, Code(code)).0.Pass?
    ensures GetCurrency(reg, Code(code)).0.Ok?
    ensures var got := GetCurrency(reg, Code(code));
      && UniqueIds(GetCurrencies(got.1).1.cache)
      && SetMainCurrency(reg, Code(code)).1 == MarkOnly(GetCurrencies(got.1).1, got.0.value)
  {
    var got := GetCurrency(reg, Code(code));
    assert GetCurrencies(got.1).1.cache == GetCurrencies(reg).0;
  }

  /** A code lookup that succeeds returns a listed entry with that
      normalised code, and leaves the loaded list as the cache. */
  lemma CodeLookupFacts(reg: Registry, code: string)
    requires GetCurrency(reg, Code(code)).0.Ok?
    ensures var got := GetCurrency(reg, Code(code));
      var pre := GetCurrencies(got.1).1;
      && pre.cache == GetCurrencies(reg).0
      && got.0.value.code == Normalize(code)
      && exists k :: 0 <= k < |pre.cache| && pre.cache[k] == got.0.value
  {
    var got := GetCurrency(reg, Code(code));
    assert got == (FindCode(GetCurrencies(reg).0, Normalize(code)), GetCurrencies(reg).1);
  }

  /** Marking a listed entry of an id-distinct list leaves it the only main one. */
  lemma MarkOnlyLeavesOne(pre: Registry, t: Currency, k: nat, marked: Registry)
    requires UniqueIds(pre.cache)
    requires k < |pre.cache| && pre.cache[k] == t
    requires marked == MarkOnly(pre, t)
    ensures var c := marked.cache;
      exists k :: 0 <= k < |c| && c[k].main && c[k].code == t.code
        && forall i :: 0 <= i < |c| && i != k ==> !c[i].main
  {
    var c := marked.cache;
    forall i | 0 <= i < |c| && i != k
      ensures !c[i].main
    {
      assert pre.cache[i].id != pre.cache[k].id;
    }
    assert c[k].main && c[k].code == t.code;
  }

  /** The fallback table names only codes the registry stores as they are. */
  lemma TableCodesAreStored(l: string)
    requires l in LocaleToCurrency
    ensures IsStoredCode(LocaleToCurrency[l])
  {
    UpperWordIsStored("CZK");
    UpperWordIsStored("EUR");
  }

  /** A listed currency with the normalised locale wins, and nothing is written. */
  lemma ByLocaleListed(reg: Registry, locale: string, norm: string -> string, i: nat)
    requires var list := GetCurrencies(reg).0;
      i < |list| && list[i].locale == Some(norm(locale))
      && forall j :: 0 <= j < i ==> list[j].locale != Some(norm(locale))
    ensures GetByLocale(reg, locale, norm) == (Ok(GetCurrencies(reg).0[i]), GetCurrencies(reg).1)
  {
    var list := GetCurrencies(reg).0;
    assert Find(list, LocaleIs(norm(locale))) == Some(i);
  }

  /** With no listed match, a locale missing from the table is a LogicException. */
  lemma ByLocaleUnknown(reg: Registry, locale: string, norm: string -> string)
    requires forall i :: 0 <= i < |GetCurrencies(reg).0| ==> GetCurrencies(reg).0[i].locale != Some(norm(locale))
    requires norm(locale) !in LocaleToCurrency
    ensures GetByLocale(reg, locale, norm) == (Err(LocaleUnknown(norm(locale))), GetCurrencies(reg).1)
  {
    var list := GetCurrencies(reg).0;
    assert Find(list, LocaleIs(norm(locale))).None?;
  }

  /** With no listed match, the table's currency is returned and its locale is
      overwritten, whatever it was, in the list and in the table. */
  lemma ByLocaleFromTable(reg: Registry, locale: string, norm: string -> string)
    requires var l := norm(locale);
      (forall i :: 0 <= i < |GetCurrencies(reg).0| ==> GetCurrencies(reg).0[i].locale != Some(l))
      && l in LocaleToCurrency
      && FindCode(GetCurrencies(reg).0, LocaleToCurrency[l]).Ok?
    ensures var l := norm(locale);
      var c := FindCode(GetCurrencies(reg).0, LocaleToCurrency[l]).value;
      var updated := c.(locale := Some(norm(l)));
      GetByLocale(reg, locale, norm) == (Ok(updated), WithLocale(GetCurrencies(reg).1, c.id, Some(norm(l))))
      && updated.code == LocaleToCurrency[l]
  {
    var l := norm(locale);
    var c := FindCode(GetCurrencies(reg).0, LocaleToCurrency[l]).value;
    var updated := SetLocale(c, Some(l), norm);
    assert Find(GetCurrencies(reg).0, LocaleIs(l)).None?;
    TableCodesAreStored(l);
    LookupAfterLoad(reg, LocaleToCurrency[l]);
    assert GetByLocale(reg, locale, norm) == (Ok(updated), WithLocale(GetCurrencies(reg).1, c.id, updated.locale));
    assert updated == c.(locale := Some(norm(l)));
  }

  /** With no listed match and the table's currency missing, the main currency
      is returned; it receives the locale only when it had none. */
  lemma ByLocaleFallsBackToMain(reg: Registry, locale: string, norm: string -> string)
    requires var l := norm(locale);
      (forall i :: 0 <= i < |GetCurrencies(reg).0| ==> GetCurrencies(reg).0[i].locale != Some(l))
      && l in LocaleToCurrency
      && FindCode(GetCurrencies(reg).0, LocaleToCurrency[l]).Err?
    ensures var l := norm(locale);
      var main := GetMainCurrency(GetCurrencies(reg).1, norm);
      var m := main.0;
      var r := GetByLocale(reg, locale, norm);
      r.0.Ok? && r.0.value.main && r.0.value.id == m.id && r.0.value.code == m.code
      && (m.locale.None? ==> r.0.value.locale == Some(norm(l)) && r.1 == WithLocale(main.1, m.id, Some(norm(l))))
      && (m.locale.Some? ==> r == (Ok(m), main.1))
  {
    var l := norm(locale);
    var code := LocaleToCurrency[l];
    assert Find(GetCurrencies(reg).0, LocaleIs(l)).None?;
    TableCodesAreStored(l);
    LookupAfterLoad(reg, code);
    var main := GetMainCurrency(GetCurrencies(reg).1, norm);
    var adopted := SetLocale(main.0, Some(l), norm);
    assert GetByLocale(reg, locale, norm)
      == if main.0.locale.None? then (Ok(adopted), WithLocale(main.1, adopted.id, adopted.locale))
         else (Ok(main.0), main.1);
    assert adopted == main.0.(locale := Some(norm(l)));
  }

  /** Loading a loaded registry changes nothing. */
  lemma Reloaded(reg: Registry)
    ensures GetCurrencies(GetCurrencies(reg).1) == GetCurrencies(reg)
  {
  }

  /** Looking a stored code up in a loaded registry searches the loaded list
      and changes nothing. */
  lemma LookupAfterLoad(reg: Registry, code: string)
    requires IsStoredCode(code)
    ensures GetCurrency(GetCurrencies(reg).1, Code(code)) == (FindCode(GetCurrencies(reg).0, code), GetCurrencies(reg).1)
  {
    Reloaded(reg);
  }

  /** After two successful lookups the registry is settled: looking either
      argument up again returns the same currency and changes nothing. */
  lemma LookupSettles(reg: Registry, a: CurrencyArg, b: CurrencyArg)
    requires GetCurrency(reg, a).0.Ok?
    requires GetCurrency(GetCurrency(reg, a).1, b).0.Ok?
    ensures var reg2 := GetCurrency(GetCurrency(reg, a).1, b).1;
      GetCurrency(reg2, a) == (GetCurrency(reg, a).0, reg2)
    ensures var reg2 := GetCurrency(GetCurrency(reg, a).1, b).1;
      GetCurrency(reg2, b) == (GetCurrency(GetCurrency(reg, a).1, b).0, reg2)
  {
    var reg1 := GetCurrency(reg, a).1;
    var reg2 := GetCurrency(reg1, b).1;
    if a.Code? {
      assert GetCurrencies(reg).0 != [];
      assert reg1.cache != [];
    }
    if b.Code? {
      assert GetCurrencies(reg1).0 != [];
      assert reg2.cache == GetCurrencies(reg1).0;
    }
  }
  /** `createCurrency` leaves the cached list alone: on a loaded registry a
      new code is in the table but looking it up still fails. */
  lemma CreatedCodeStaysUnlisted(reg: Registry, code: string, symbol: string)
    requires reg.cache != []
    requires ValidateCode(code).Pass?
    requires forall i :: 0 <= i < |reg.cache| ==> reg.cache[i].code != Normalize(code)
    ensures CreateCurrency(reg, code, symbol).0.Ok?
    ensures CreateCurrency(reg, code, symbol).0.value in CreateCurrency(reg, code, symbol).1.store
    ensures GetCurrency(CreateCurrency(reg, code, symbol).1, Code(code))
         == (Err(CurrencyNotFound(Normalize(code))), CreateCurrency(reg, code, symbol).1)
  {
    var reg1 := CreateCurrency(reg, code, symbol).1;
    assert reg1.cache == reg.cache;
    assert GetCurrencies(reg1) == (reg.cache, reg1);
    assert FindCode(reg.cache, Normalize(code)) == Err(CurrencyNotFound(Normalize(code)));
  }

  /** On an empty registry `getMainCurrency` creates USD / "$" with locale
      "en" as main and stores it in the table. */
  lemma MainOfEmptyRegistry(norm: string -> string)
    ensures var (c, reg1) := GetMainCurrency(Registry([], []), norm);
      && c.code == "USD" && c.symbol == "$" && c.main && c.locale == Some(norm("en"))
      && reg1.store == [c] && reg1.cache == []
  {
    LoadEmpty([]);
    assert GetCurrencies(Registry([], [])) == ([], Registry([], []));
    RepairOfEmptyTable(Registry([], []), norm);
  }
}
