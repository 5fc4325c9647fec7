/** The persisted order entity (`model.Commande`). The entity class is not
    modelled; its fields are assumed to be those of the transfer object, one
    for one. */
module CommandeModel {
  import opened Wrappers

  /** A calendar date (`java.time.LocalDate`) as a count of days since an epoch. */
  type EpochDay = int

  /** One stored order. Every field is a nullable Java reference; `M` stands
      for the `Double` amount, which the service only copies. */
  datatype Commande<M> = Commande(
    id: Option<int>,
    description: Option<string>,
    quantite: Option<int>,
    date: Option<EpochDay>,
    montant: Option<M>)
}

/** The transfer object exchanged at the API boundary (`dto.CommandeDTO`). */
module CommandeDtos {
  import opened Wrappers
  import opened CommandeModel

  datatype CommandeDto<M> = CommandeDto(
    id: Option<int>,
    description: Option<string>,
    quantite: Option<int>,
    date: Option<EpochDay>,
    montant: Option<M>)
}

/** `mapper.CommandeMapper`. The mapper class is not modelled; both
    directions are assumed to copy every field, nulls included. */
module CommandeMapper {
  import opened CommandeModel
  import opened CommandeDtos

  /** `toDTO`: the transfer object carries the entity's fields unchanged. */
  function ToDto<M>(c: Commande<M>): (d: CommandeDto<M>)
    ensures d.id == c.id && d.description == c.description && d.quantite == c.quantite
    ensures d.date == c.date && d.montant == c.montant
  {
    CommandeDto(c.id, c.description, c.quantite, c.date, c.montant)
  }

  /** `toEntity`: the entity carries the transfer object's fields unchanged. */
  function ToEntity<M>(d: CommandeDto<M>): (c: Commande<M>)
    ensures c.id == d.id && c.description == d.description && c.quantite == d.quantite
    ensures c.date == d.date && c.montant == d.montant
  {
    Commande(d.id, d.description, d.quantite, d.date, d.montant)
  }

  /** Converting an entity to a transfer object and back gives the entity. */
  lemma EntityRoundTrip<M>(c: Commande<M>)
    ensures ToEntity(ToDto(c)) == c
  {
  }

  /** Converting a transfer object to an entity and back gives the transfer object. */
  lemma DtoRoundTrip<M>(d: CommandeDto<M>)
    ensures ToDto(ToEntity(d)) == d
  {
  }

  /** Two entities with the same transfer object are the same entity. */
  lemma ToDtoInjective<M>(c: Commande<M>, c': Commande<M>)
    requires ToDto(c) == ToDto(c')
    ensures c == c'
  {
  }
}
