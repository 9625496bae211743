/** `LocationServiceImpl`: pick-up locations, unique by name and address. */
module LocationService {
  import opened Base
  import opened Tables
  import opened Entities
  import opened Dtos
  import opened LocationMapper

  /** The message of the conflict on a (name, address) pair already in use. */
  function PlaceTakenText(name: string, address: string): string {
    "Location with name '" + name + "' and address '" + address + "' already exists"
  }

  /** `getLocationById`. */
  function GetLocationById(t: Table<Location>, id: int): (r: Result<LocationDto>)
    ensures r.Ok? <==> id in t.rows
    ensures r.Ok? ==> r.value == ToLocationDto(Row(id, t.rows[id]))
    ensures r.Err? ==> r.error == NotFound(NotFoundText("Location", id))
  {
    if id in t.rows then Ok(ToLocationDto(Row(id, t.rows[id]))) else Err(NotFound(NotFoundText("Location", id)))
  }

  /** `createLocation`. A (name, address) pair already in use is a conflict;
      otherwise the location is saved: over the stored location with the
      body's id if there is one, otherwise under a new id. Pairs stay unique. */
  method CreateLocation(db: Database, d: LocationDto) returns (r: Result<LocationDto>)
    requires db.Valid() && ValidLocationDto(d)
    modifies db`locations
    ensures db.Valid()
    ensures Taken(old(db.locations), PlaceOf, (d.name.value, d.address.value)) ==>
              r == Err(Conflict(PlaceTakenText(d.name.value, d.address.value))) && db.locations == old(db.locations)
    ensures !Taken(old(db.locations), PlaceOf, (d.name.value, d.address.value)) ==>
              db.locations == Merge(old(db.locations), d.id, ToLocation(d))
              && r == Ok(d.(id := Some(MergedId(old(db.locations), d.id))))
  {
    if Taken(db.locations, PlaceOf, (d.name.value, d.address.value)) {
      return Err(Conflict(PlaceTakenText(d.name.value, d.address.value)));
    }
    var l := ToLocation(d);
    var id := MergedId(db.locations, d.id);
    MergeKeepsUnique(db.locations, PlaceOf, d.id, l);
    db.locations := Merge(db.locations, d.id, l);
    r := Ok(ToLocationDto(Row(id, l)));
  }

  /** The update conflicts: it changes the name or the address, and some
      location already has the new pair. */
  predicate PlaceConflict(t: Table<Location>, id: int, d: LocationDto)
    requires id in t.rows && d.name.Some? && d.address.Some?
  {
    && (t.rows[id].name != d.name.value || t.rows[id].address != d.address.value)
    && Taken(t, PlaceOf, (d.name.value, d.address.value))
  }

  /** Given unique pairs, the conflict check rejects exactly the pairs
      another location holds. */
  lemma PlaceConflictExact(t: Table<Location>, id: int, d: LocationDto)
    requires id in t.rows && Unique(t, PlaceOf) && d.name.Some? && d.address.Some?
    ensures PlaceConflict(t, id, d) <==> TakenByOther(t, PlaceOf, (d.name.value, d.address.value), id)
  {
    var place := (d.name.value, d.address.value);
    if TakenByOther(t, PlaceOf, place, id) {
      var j :| j in t.rows && j != id && PlaceOf(t.rows[j]) == Some(place);
      assert PlaceOf(t.rows[id]) != PlaceOf(t.rows[j]);
    }
  }

  /** The text of Hibernate's refusal to flush an entity whose id was
      changed after it was loaded. */
  function AlteredIdText(entity: string, from: int, to: int): string {
    "identifier of an instance of com.rimmelasghar.boilerplate.springboot.model." + entity
      + " was altered from " + IdToString(from) + " to " + IdToString(to)
  }

  /** The body carries an id other than the path's: the mapper copies it
      onto the loaded location. */
  predicate MovesId(id: int, d: LocationDto) {
    d.id.Some? && d.id.value != id
  }

  /** `updateLocation`. An absent id raises NotFound, and a changed pair that
      another location holds is a conflict. The mapper then copies the body,
      its id included, onto the loaded location. The location stays attached
      to the request's persistence context, so an id other than the path's is
      refused when the save is flushed and nothing changes. Otherwise the
      name and address are overwritten and only that row changes. Pairs stay
      unique. */
  method UpdateLocation(db: Database, id: int, d: LocationDto) returns (r: Result<LocationDto>)
    requires db.Valid() && ValidLocationDto(d)
    modifies db`locations
    ensures db.Valid()
    ensures id !in old(db.locations.rows) ==>
              r == Err(NotFound(NotFoundText("Location", id))) && db.locations == old(db.locations)
    ensures id in old(db.locations.rows) && PlaceConflict(old(db.locations), id, d) ==>
              r == Err(Conflict(PlaceTakenText(d.name.value, d.address.value))) && db.locations == old(db.locations)
    ensures id in old(db.locations.rows) && !PlaceConflict(old(db.locations), id, d) && MovesId(id, d) ==>
              r == Err(IdentifierAltered(AlteredIdText("Location", id, d.id.value))) && db.locations == old(db.locations)
    ensures id in old(db.locations.rows) && !PlaceConflict(old(db.locations), id, d) && !MovesId(id, d) ==>
              && db.locations.rows == old(db.locations.rows)[id := Location(d.name.value, d.address.value)]
              && db.locations.next == old(db.locations.next)
              && r == Ok(d.(id := Some(id)))
  {
    if id !in db.locations.rows {
      return Err(NotFound(NotFoundText("Location", id)));
    }
    if PlaceConflict(db.locations, id, d) {
      return Err(Conflict(PlaceTakenText(d.name.value, d.address.value)));
    }
    var l := UpdateLocationFromDto(d, Row(id, db.locations.rows[id]));
    if l.id != id {
      return Err(IdentifierAltered(AlteredIdText("Location", id, l.id)));
    }
    PlaceConflictExact(db.locations, id, d);
    SaveKeepsUnique(db.locations, PlaceOf, id, l.value);
    db.locations := Save(db.locations, id, l.value);
    r := Ok(ToLocationDto(l));
  }

  /** `deleteLocation`. An absent id raises NotFound. Otherwise exactly that
      row is removed. */
  method DeleteLocation(db: Database, id: int) returns (r: Result<()>)
    requires db.Valid()
    modifies db`locations
    ensures db.Valid()
    ensures id !in old(db.locations.rows) ==>
              r == Err(NotFound(NotFoundText("Location", id))) && db.locations == old(db.locations)
    ensures id in old(db.locations.rows) ==>
              r.Ok? && db.locations.rows == old(db.locations.rows) - {id} && db.locations.next == old(db.locations.next)
  {
    if id !in db.locations.rows {
      return Err(NotFound(NotFoundText("Location", id)));
    }
    RemoveKeepsUnique(db.locations, PlaceOf, id);
    db.locations := Remove(db.locations, id);
    r := Ok(());
  }
}
