/** The order service (`service.impl.CommandeServiceImpl`) over an in-memory
    keyed store standing in for the JPA repository. */
module CommandeService {
  import opened Wrappers
  import opened CommandeModel
  import opened CommandeDtos
  import opened CommandeMapper

  /** `NotFound` is the "Commande not found" exception; `NullDate` is the
      null-pointer failure of listing when a stored order has no date. */
  datatype ServiceError = NotFound | NullDate

  /** `LocalDate.minusDays`: going `n` days forward from the result gives `day` back. */
  function MinusDays(day: EpochDay, n: int): (r: EpochDay)
    ensures r + n == day
  {
    day - n
  }

  /** `LocalDate.isAfter`: strictly later, so a day is never after itself. */
  function IsAfter(day: EpochDay, other: EpochDay): (b: bool)
    ensures b <==> other < day
    ensures b ==> day != other
  {
    day > other
  }

  /** The stream filter's test, for an order whose date is present: dated at
      least one day after the cutoff, and never on the cutoff day itself. */
  function IsRecent<M>(c: Commande<M>, cutoff: EpochDay): (b: bool)
    ensures b ==> c.date.Some? && c.date.value >= cutoff + 1
    ensures c.date.Some? && c.date.value > cutoff ==> b
    ensures c.date == Some(cutoff) ==> !b
  {
    c.date.Some? && IsAfter(c.date.value, cutoff)
  }

  /** Under a window of `n` days an order passes on `today` exactly when it
      is dated fewer than `n` days before `today`; as the clock advances an
      order can only drop out of the window. */
  lemma WithinWindow<M>(c: Commande<M>, today: EpochDay, n: int, later: EpochDay)
    requires today <= later
    ensures IsRecent(c, MinusDays(today, n)) <==> c.date.Some? && today - c.date.value < n
    ensures IsRecent(c, MinusDays(later, n)) ==> IsRecent(c, MinusDays(today, n))
  {
  }

  /** The stream pipeline of `getAllCommandes`: keep the orders dated after
      `cutoff`, convert each to a transfer object, in order. Reading the date
      of an order that has none fails the whole call. */
  function FilterRecent<M>(cs: seq<Commande<M>>, cutoff: EpochDay): (r: Result<seq<CommandeDto<M>>, ServiceError>)
    ensures r.Failure? <==> exists i :: 0 <= i < |cs| && cs[i].date.None?
    ensures r.Failure? ==> r.error == NullDate
    ensures r.Success? ==> |r.value| <= |cs|
    ensures r.Success? ==> forall j :: 0 <= j < |r.value| ==>
      r.value[j].date.Some? && r.value[j].date.value > cutoff
    ensures r.Success? ==> forall i :: 0 <= i < |cs| && IsRecent(cs[i], cutoff) ==> ToDto(cs[i]) in r.value
  {
    if cs == [] then Success([])
    else if cs[0].date.None? then Failure(NullDate)
    else
      match FilterRecent(cs[1..], cutoff)
      case Failure(e) =>
        assert exists i :: 0 <= i < |cs| && cs[i].date.None? by {
          var i :| 0 <= i < |cs[1..]| && cs[1..][i].date.None?;
          assert cs[i + 1] == cs[1..][i];
        }
        Failure(e)
      case Success(rest) =>
        assert forall i :: 0 < i < |cs| ==> cs[i] == cs[1..][i - 1];
        if IsAfter(cs[0].date.value, cutoff) then Success([ToDto(cs[0])] + rest) else Success(rest)
  }

  /** The positions of `cs` that the date filter keeps, in increasing order. */
  function RecentPositions<M>(cs: seq<Commande<M>>, cutoff: EpochDay): (p: seq<nat>)
    ensures forall j :: 0 <= j < |p| ==> p[j] < |cs|
    ensures forall j, k :: 0 <= j < k < |p| ==> p[j] < p[k]
    ensures forall i :: 0 <= i < |cs| ==> (i in p <==> IsRecent(cs[i], cutoff))
  {
    if cs == [] then []
    else
      var rest := RecentPositions(cs[1..], cutoff);
      var shifted := seq(|rest|, j requires 0 <= j < |rest| => rest[j] + 1);
      assert forall i :: 0 < i < |cs| ==> (i in shifted <==> i - 1 in rest) by {
        forall i | 0 < i < |cs|
          ensures i in shifted <==> i - 1 in rest
        {
          if i - 1 in rest {
            var j :| 0 <= j < |rest| && rest[j] == i - 1;
            assert shifted[j] == i;
          }
        }
      }
      assert forall i :: 0 < i < |cs| ==> cs[i] == cs[1..][i - 1];
      if IsRecent(cs[0], cutoff) then [0] + shifted else shifted
  }

  /** A successful listing holds exactly the kept orders, each converted,
      position by position. */
  lemma {:induction false} FilterRecentSelects<M>(cs: seq<Commande<M>>, cutoff: EpochDay)
    requires FilterRecent(cs, cutoff).Success?
    ensures |FilterRecent(cs, cutoff).value| == |RecentPositions(cs, cutoff)|
    ensures forall j :: 0 <= j < |FilterRecent(cs, cutoff).value| ==>
      FilterRecent(cs, cutoff).value[j] == ToDto(cs[RecentPositions(cs, cutoff)[j]])
  {
    if cs != [] {
      FilterRecentSelects(cs[1..], cutoff);
      FilterRecentUnfold(cs, cutoff);
      RecentPositionsUnfold(cs, cutoff);
      ConsSelects(cs, IsRecent(cs[0], cutoff), FilterRecent(cs[1..], cutoff).value, RecentPositions(cs[1..], cutoff));
    }
  }

  /** Selection by positions carries over from the tail to the whole sequence. */
  lemma ConsSelects<M>(cs: seq<Commande<M>>, keep: bool, v: seq<CommandeDto<M>>, p: seq<nat>)
    requires cs != [] && |v| == |p|
    requires forall j :: 0 <= j < |p| ==> p[j] < |cs| - 1 && v[j] == ToDto(cs[1..][p[j]])
    ensures var v2 := (if keep then [ToDto(cs[0])] else []) + v;
      var p2 := (if keep then [0] else []) + seq(|p|, j requires 0 <= j < |p| => p[j] + 1);
      |v2| == |p2| && forall j :: 0 <= j < |v2| ==> p2[j] < |cs| && v2[j] == ToDto(cs[p2[j]])
  {
    var shifted := seq(|p|, j requires 0 <= j < |p| => p[j] + 1);
    forall j | 0 <= j < |p|
      ensures shifted[j] < |cs| && v[j] == ToDto(cs[shifted[j]])
    {
      assert cs[shifted[j]] == cs[1..][p[j]];
    }
  }

  /** One step of the stream, on a non-empty input whose listing succeeds. */
  lemma FilterRecentUnfold<M>(cs: seq<Commande<M>>, cutoff: EpochDay)
    requires cs != [] && FilterRecent(cs, cutoff).Success?
    ensures FilterRecent(cs[1..], cutoff).Success?
    ensures FilterRecent(cs, cutoff).value ==
      (if IsRecent(cs[0], cutoff) then [ToDto(cs[0])] else []) + FilterRecent(cs[1..], cutoff).value
  {
  }

  /** One step of the positions, on a non-empty input. */
  lemma RecentPositionsUnfold<M>(cs: seq<Commande<M>>, cutoff: EpochDay)
    requires cs != []
    ensures var rest := RecentPositions(cs[1..], cutoff);
      RecentPositions(cs, cutoff) ==
        (if IsRecent(cs[0], cutoff) then [0] else []) + seq(|rest|, j requires 0 <= j < |rest| => rest[j] + 1)
  {
  }

  /** An order dated exactly on the cutoff is not listed. */
  lemma CutoffDayExcluded<M>(cs: seq<Commande<M>>, cutoff: EpochDay, c: Commande<M>)
    requires c.date == Some(cutoff)
    requires FilterRecent(cs, cutoff).Success?
    ensures ToDto(c) !in FilterRecent(cs, cutoff).value
  {
  }

  /** Of the orders in a successful listing's input, an order is listed
      exactly when its date is strictly after the cutoff. */
  lemma ListedIffAfterCutoff<M>(cs: seq<Commande<M>>, cutoff: EpochDay, i: nat)
    requires i < |cs|
    requires FilterRecent(cs, cutoff).Success?
    ensures cs[i].date.Some?
    ensures ToDto(cs[i]) in FilterRecent(cs, cutoff).value <==> cs[i].date.value > cutoff
  {
  }

  /** No value occurs twice. */
  predicate Distinct(s: seq<int>)
  {
    forall i, j :: 0 <= i < j < |s| ==> s[i] != s[j]
  }

  /** `a` occurs in `s` strictly before `b`. */
  ghost predicate Before(s: seq<int>, a: int, b: int)
  {
    exists i, j :: 0 <= i < j < |s| && s[i] == a && s[j] == b
  }

  /** `s` with every occurrence of `x` taken out, the rest in order. */
  function RemoveId(s: seq<int>, x: int): (r: seq<int>)
    ensures forall y :: y in r <==> y in s && y != x
    ensures Distinct(s) ==> Distinct(r)
    ensures x !in s ==> r == s
  {
    if s == [] then []
    else if s[0] == x then RemoveId(s[1..], x)
    else
      var rest := RemoveId(s[1..], x);
      assert Distinct(s) ==> Distinct(s[1..]) && s[0] !in s[1..];
      [s[0]] + rest
  }

  /** Removing `x` keeps the relative order of every other pair of keys. */
  lemma {:induction false} RemoveIdKeepsOrder(s: seq<int>, x: int, a: int, b: int)
    requires Before(s, a, b) && a != x && b != x
    ensures Before(RemoveId(s, x), a, b)
  {
    var i, j :| 0 <= i < j < |s| && s[i] == a && s[j] == b;
    var rest := RemoveId(s[1..], x);
    var r := RemoveId(s, x);
    assert s[1..][j - 1] == b;
    assert b in rest;
    if i == 0 {
      assert r == [a] + rest;
      var k :| 0 <= k < |rest| && rest[k] == b;
      assert r[0] == a && r[k + 1] == b;
    } else {
      assert s[1..][i - 1] == a;
      RemoveIdKeepsOrder(s[1..], x, a, b);
      var p, q :| 0 <= p < q < |rest| && rest[p] == a && rest[q] == b;
      if s[0] == x {
        assert r == rest;
      } else {
        assert r == [s[0]] + rest;
        assert r[p + 1] == a && r[q + 1] == b;
      }
    }
  }

  /** The stored orders, in the store's iteration order. */
  function InOrder<M>(store: map<int, Commande<M>>, order: seq<int>): (cs: seq<Commande<M>>)
    requires forall i :: 0 <= i < |order| ==> order[i] in store
  {
    seq(|order|, i requires 0 <= i < |order| => store[order[i]])
  }

  /** What the repository keeps: every key listed once in `order`, every
      order stored under its own id, every id below the next one to assign. */
  ghost predicate StoreInvariant<M>(store: map<int, Commande<M>>, order: seq<int>, nextId: int)
  {
    && (forall i :: 0 <= i < |order| ==> order[i] in store)
    && (forall k :: k in store ==> k in order)
    && Distinct(order)
    && (forall k :: k in store ==> 0 < k < nextId && store[k].id == Some(k))
    && 0 < nextId
  }

  class CommandeServiceImpl<M> {
    /** The repository's rows, by id. */
    var store: map<int, Commande<M>>
    /** The order in which `findAll` returns the rows (insertion order). */
    var order: seq<int>
    /** The id the repository assigns to the next saved order. */
    var nextId: int

    ghost predicate Valid()
      reads this
    {
      StoreInvariant(store, order, nextId)
    }

    /** A service over an empty repository. */
    constructor ()
      ensures Valid()
      ensures store == map[] && order == [] && nextId == 1
    {
      store := map[];
      order := [];
      nextId := 1;
    }

    /** `commandeRepository.findAll()`. */
    function FindAll(): (cs: seq<Commande<M>>)
      reads this
      requires Valid()
      ensures forall k :: k in store ==> store[k] in cs
      ensures forall i :: 0 <= i < |cs| ==>
        cs[i].id.Some? && cs[i].id.value in store && cs[i] == store[cs[i].id.value]
      ensures forall i, j :: 0 <= i < j < |cs| ==> cs[i].id != cs[j].id
    {
      InOrderListsRows(store, order, nextId);
      InOrder(store, order)
    }

    /** `getAllCommandes`, with the clock reading `today` and the configured
        window `commandesLast` passed in. */
    function GetAllCommandes(today: EpochDay, commandesLast: int): (r: Result<seq<CommandeDto<M>>, ServiceError>)
      reads this
      requires Valid()
      ensures r.Failure? <==> exists k :: k in store && store[k].date.None?
      ensures r.Failure? ==> r.error == NullDate
      ensures r.Success? ==> forall j :: 0 <= j < |r.value| ==>
        && r.value[j].id.Some?
        && r.value[j].id.value in store
        && r.value[j] == ToDto(store[r.value[j].id.value])
        && IsRecent(store[r.value[j].id.value], MinusDays(today, commandesLast))
      ensures r.Success? ==> forall k :: k in store && IsRecent(store[k], MinusDays(today, commandesLast)) ==>
        ToDto(store[k]) in r.value
      ensures r.Success? ==> forall j, k :: 0 <= j < k < |r.value| ==>
        r.value[j].id.Some? && r.value[k].id.Some? && Before(order, r.value[j].id.value, r.value[k].id.value)
    {
      var cs := FindAll();
      var cutoff := MinusDays(today, commandesLast);
      var r := FilterRecent(cs, cutoff);
      ListingOfStore(store, order, nextId, cutoff);
      r
    }

    /** `getCommandeById`. */
    function GetCommandeById(id: int): (r: Result<CommandeDto<M>, ServiceError>)
      reads this
      requires Valid()
      ensures r.Failure? <==> id !in store
      ensures r.Failure? ==> r.error == NotFound
      ensures r.Success? ==> r.value.id == Some(id) && ToEntity(r.value) == store[id]
    {
      if id in store then Success(ToDto(store[id])) else Failure(NotFound)
    }

    /** `createCommande`: save the converted order under a fresh id. */
    method CreateCommande(dto: CommandeDto<M>) returns (saved: CommandeDto<M>)
      requires Valid()
      modifies this
      ensures Valid()
      ensures old(nextId) !in old(store)
      ensures saved == dto.(id := Some(old(nextId)))
      ensures store == old(store)[old(nextId) := ToEntity(saved)]
      ensures order == old(order) + [old(nextId)]
      ensures nextId == old(nextId) + 1
    {
      var commande := ToEntity(dto);
      // save: the repository assigns the id
      var id := nextId;
      commande := commande.(id := Some(id));
      store := store[id := commande];
      order := order + [id];
      nextId := nextId + 1;
      saved := ToDto(commande);
    }

    /** `updateCommande`: overwrite the four mutable fields of a stored order. */
    method UpdateCommande(id: int, dto: CommandeDto<M>) returns (r: Result<CommandeDto<M>, ServiceError>)
      requires Valid()
      modifies this
      ensures Valid()
      ensures order == old(order) && nextId == old(nextId)
      ensures r.Failure? <==> id !in old(store)
      ensures r.Failure? ==> r.error == NotFound && store == old(store)
      ensures r.Success? ==> r.value == dto.(id := Some(id))
      ensures r.Success? ==> store == old(store)[id := ToEntity(r.value)]
    {
      if id !in store {
        return Failure(NotFound);
      }
      var existing := store[id];
      existing := existing.(description := dto.description);
      existing := existing.(quantite := dto.quantite);
      existing := existing.(date := dto.date);
      existing := existing.(montant := dto.montant);
      store := store[id := existing];
      r := Success(ToDto(existing));
    }

    /** `deleteCommande`: remove a stored order. */
    method DeleteCommande(id: int) returns (r: Outcome<ServiceError>)
      requires Valid()
      modifies this
      ensures Valid()
      ensures nextId == old(nextId)
      ensures r.Fail? <==> id !in old(store)
      ensures r.Fail? ==> r.error == NotFound && store == old(store) && order == old(order)
      ensures r.Pass? ==> store == old(store) - {id} && order == RemoveId(old(order), id)
    {
      if id !in store {
        return Fail(NotFound);
      }
      store := store - {id};
      var remaining := RemoveId(order, id);
      assert forall i :: 0 <= i < |remaining| ==> remaining[i] in remaining;
      order := remaining;
      r := Pass;
    }
  }

  /** Over a valid store, `InOrder` returns every stored row exactly once. */
  lemma InOrderListsRows<M>(store: map<int, Commande<M>>, order: seq<int>, nextId: int)
    requires StoreInvariant(store, order, nextId)
    ensures var cs := InOrder(store, order);
      && (forall k :: k in store ==> store[k] in cs)
      && (forall i :: 0 <= i < |cs| ==> cs[i].id.Some? && cs[i].id.value in store && cs[i] == store[cs[i].id.value])
      && (forall i, j :: 0 <= i < j < |cs| ==> cs[i].id != cs[j].id)
  {
    var cs := InOrder(store, order);
    forall k | k in store
      ensures store[k] in cs
    {
      var i :| 0 <= i < |order| && order[i] == k;
      assert cs[i] == store[k];
    }
  }

  /** Listing a valid store by its iteration order selects exactly its recent
      orders, each under its own id, in iteration order. */
  lemma ListingOfStore<M>(store: map<int, Commande<M>>, order: seq<int>, nextId: int, cutoff: EpochDay)
    requires StoreInvariant(store, order, nextId)
    ensures var r := FilterRecent(InOrder(store, order), cutoff);
      && (r.Failure? <==> exists k :: k in store && store[k].date.None?)
      && (r.Success? ==> forall j :: 0 <= j < |r.value| ==>
        && r.value[j].id.Some?
        && r.value[j].id.value in store
        && r.value[j] == ToDto(store[r.value[j].id.value])
        && IsRecent(store[r.value[j].id.value], cutoff))
      && (r.Success? ==> forall k :: k in store && IsRecent(store[k], cutoff) ==> ToDto(store[k]) in r.value)
      && (r.Success? ==> forall j, k :: 0 <= j < k < |r.value| ==>
        r.value[j].id.Some? && r.value[k].id.Some? && Before(order, r.value[j].id.value, r.value[k].id.value))
  {
    var cs := InOrder(store, order);
    var r := FilterRecent(cs, cutoff);
    assert (exists i :: 0 <= i < |cs| && cs[i].date.None?) <==> (exists k :: k in store && store[k].date.None?) by {
      if k :| k in store && store[k].date.None? {
        var i :| 0 <= i < |order| && order[i] == k;
        assert cs[i].date.None?;
      }
    }
    if r.Success? {
      var v, p := r.value, RecentPositions(cs, cutoff);
      FilterRecentSelects(cs, cutoff);
      forall j | 0 <= j < |v|
        ensures v[j].id == Some(order[p[j]]) && v[j] == ToDto(store[order[p[j]]])
        ensures IsRecent(store[order[p[j]]], cutoff)
      {
        assert p[j] in p;
      }
      forall k | k in store && IsRecent(store[k], cutoff)
        ensures ToDto(store[k]) in v
      {
        var i :| 0 <= i < |order| && order[i] == k;
        assert cs[i] == store[k];
      }
      forall j, k | 0 <= j < k < |v|
        ensures Before(order, order[p[j]], order[p[k]])
      {
        assert p[j] < p[k];
      }
    }
  }
}
