/** Sequences of service calls, with what a caller can conclude from the
    service's contracts alone. */
module CommandeScenarios {
  import opened Wrappers
  import opened CommandeModel
  import opened CommandeDtos
  import opened CommandeMapper
  import opened CommandeService

  /** A created order can be read back, unchanged, under its new id. */
  method CreateThenGet<M>(svc: CommandeServiceImpl<M>, dto: CommandeDto<M>)
    returns (saved: CommandeDto<M>, got: Result<CommandeDto<M>, ServiceError>)
    requires svc.Valid()
    modifies svc
    ensures svc.Valid()
    ensures saved.id == Some(old(svc.nextId)) && old(svc.nextId) !in old(svc.store)
    ensures got == Success(saved)
  {
    saved := svc.CreateCommande(dto);
    got := svc.GetCommandeById(saved.id.value);
    EntityRoundTrip(svc.store[saved.id.value]);
  }

  /** After a delete, reading the id and deleting it again both fail with
      `NotFound`; the first delete fails exactly when the id was absent. */
  method DeleteTwice<M>(svc: CommandeServiceImpl<M>, id: int)
    returns (first: Outcome<ServiceError>, got: Result<CommandeDto<M>, ServiceError>, second: Outcome<ServiceError>)
    requires svc.Valid()
    modifies svc
    ensures svc.Valid()
    ensures first.Pass? <==> id in old(svc.store)
    ensures got == Failure(NotFound)
    ensures second == Fail(NotFound)
    ensures svc.store == old(svc.store) - {id}
  {
    first := svc.DeleteCommande(id);
    got := svc.GetCommandeById(id);
    second := svc.DeleteCommande(id);
  }

  /** A deleted id is never handed out again by a later create. */
  method DeleteThenCreate<M>(svc: CommandeServiceImpl<M>, id: int, dto: CommandeDto<M>)
    returns (deleted: Outcome<ServiceError>, saved: CommandeDto<M>)
    requires svc.Valid()
    modifies svc
    ensures svc.Valid()
    ensures deleted.Pass? ==> saved.id != Some(id)
  {
    deleted := svc.DeleteCommande(id);
    saved := svc.CreateCommande(dto);
  }

  /** An order created today is listed under a 30-day window today and no
      longer listed 31 days later. */
  method RecencyWindow<M>(svc: CommandeServiceImpl<M>, dto: CommandeDto<M>, today: EpochDay)
    returns (saved: CommandeDto<M>,
             listedNow: Result<seq<CommandeDto<M>>, ServiceError>,
             listedLater: Result<seq<CommandeDto<M>>, ServiceError>)
    requires svc.Valid()
    requires dto.date == Some(today)
    modifies svc
    ensures svc.Valid()
    ensures listedNow.Success? <==> listedLater.Success?
    ensures listedNow.Success? <==> forall k :: k in old(svc.store) ==> old(svc.store)[k].date.Some?
    ensures listedNow.Success? ==> saved in listedNow.value
    ensures listedLater.Success? ==> saved !in listedLater.value
  {
    saved := svc.CreateCommande(dto);
    listedNow := svc.GetAllCommandes(today, 30);
    listedLater := svc.GetAllCommandes(today + 31, 30);
    var id := saved.id.value;
    assert svc.store[id] == ToEntity(saved);
    assert forall k :: k in svc.store && k != id ==> k in old(svc.store) && svc.store[k] == old(svc.store)[k];
    DtoRoundTrip(saved);
  }

  /** An update may store a null date; every later listing then fails. */
  method UpdateToNullDate<M>(svc: CommandeServiceImpl<M>, id: int, dto: CommandeDto<M>, today: EpochDay, commandesLast: int)
    returns (updated: Result<CommandeDto<M>, ServiceError>, listed: Result<seq<CommandeDto<M>>, ServiceError>)
    requires svc.Valid()
    requires id in svc.store && dto.date.None?
    modifies svc
    ensures svc.Valid()
    ensures updated.Success?
    ensures listed == Failure(NullDate)
  {
    updated := svc.UpdateCommande(id, dto);
    listed := svc.GetAllCommandes(today, commandesLast);
    assert svc.store[id].date.None?;
  }
}
