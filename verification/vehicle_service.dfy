/** `VehicleServiceImpl`: vehicles, whose license plates are unique. */
module VehicleService {
  import opened Base
  import opened Tables
  import opened Entities
  import opened Dtos
  import opened VehicleMapper

  /** The message of the conflict on a license plate already in use. */
  function PlateTakenText(plate: string): string {
    "Vehicle with license plate " + plate + " already exists"
  }

  /** `getVehicleById`. */
  function GetVehicleById(t: Table<Vehicle>, id: int): (r: Result<VehicleDto>)
    ensures r.Ok? <==> id in t.rows
    ensures r.Ok? ==> r.value == ToVehicleDto(Row(id, t.rows[id]))
    ensures r.Err? ==> r.error == NotFound(NotFoundText("Vehicle", id))
  {
    if id in t.rows then Ok(ToVehicleDto(Row(id, t.rows[id]))) else Err(NotFound(NotFoundText("Vehicle", id)))
  }

  /** `getAllVehicles`: one DTO per stored vehicle, in increasing id order. */
  function GetAllVehicles(t: Table<Vehicle>): (r: seq<VehicleDto>)
    requires WellFormed(t)
    ensures |r| == |t.rows|
    ensures forall k :: k in t.rows ==> ToVehicleDto(Row(k, t.rows[k])) in r
    ensures forall i, j :: 0 <= i < j < |r| ==> r[i].id.Some? && r[j].id.Some? && r[i].id.value < r[j].id.value
  {
    EntriesCount(t);
    var rows := Entries(t);
    var r := MapRows(rows, ToVehicleDto);
    assert forall k :: k in t.rows ==> ToVehicleDto(Row(k, t.rows[k])) in r by {
      forall k | k in t.rows
        ensures ToVehicleDto(Row(k, t.rows[k])) in r
      {
        EntriesExact(t, k, t.rows[k]);
        MapRowsHas(rows, ToVehicleDto, Row(k, t.rows[k]));
      }
    }
    r
  }

  /** `createVehicle`. A license plate already in use is a conflict; then
      the location is resolved (NotFound when it is not stored) and the
      vehicle is saved: over the stored vehicle with the body's id if there is
      one, otherwise under a new id. Plates stay unique. */
  method CreateVehicle(db: Database, d: VehicleDto) returns (r: Result<VehicleDto>)
    requires db.Valid() && ValidVehicleDto(d)
    modifies db`vehicles
    ensures db.Valid()
    ensures Taken(old(db.vehicles), PlateOf, d.licensePlate.value) ==>
              r == Err(Conflict(PlateTakenText(d.licensePlate.value))) && db.vehicles == old(db.vehicles)
    ensures !Taken(old(db.vehicles), PlateOf, d.licensePlate.value) ==>
              var v := ToVehicle(d, db.locations);
              && (v.Ok? ==> db.vehicles == Merge(old(db.vehicles), d.id, v.value)
                            && r == Ok(d.(id := Some(MergedId(old(db.vehicles), d.id)))))
              && (v.Err? ==> db.vehicles == old(db.vehicles) && r == Err(v.error))
  {
    var plate := d.licensePlate.value;
    if Taken(db.vehicles, PlateOf, plate) {
      return Err(Conflict(PlateTakenText(plate)));
    }
    var v := ToVehicle(d, db.locations);
    if v.Err? {
      return Err(v.error);
    }
    var id := MergedId(db.vehicles, d.id);
    MergeKeepsUnique(db.vehicles, PlateOf, d.id, v.value);
    VehicleDtoRoundTrip(d, db.locations, id);
    db.vehicles := Merge(db.vehicles, d.id, v.value);
    r := Ok(ToVehicleDto(Row(id, v.value)));
  }

  /** The update's license plate conflicts: it is given, differs from the
      vehicle's own, and some vehicle already has it. */
  predicate PlateConflict(t: Table<Vehicle>, id: int, u: VehicleUpdateDto)
    requires id in t.rows
  {
    u.licensePlate.Some? && u.licensePlate.value != t.rows[id].licensePlate && Taken(t, PlateOf, u.licensePlate.value)
  }

  /** Given unique plates, the conflict check rejects exactly the plates
      another vehicle holds. */
  lemma PlateConflictExact(t: Table<Vehicle>, id: int, u: VehicleUpdateDto)
    requires id in t.rows && Unique(t, PlateOf) && u.licensePlate.Some?
    ensures PlateConflict(t, id, u) <==> TakenByOther(t, PlateOf, u.licensePlate.value, id)
  {
    var plate := u.licensePlate.value;
    if TakenByOther(t, PlateOf, plate, id) {
      var j :| j in t.rows && j != id && PlateOf(t.rows[j]) == Some(plate);
      assert PlateOf(t.rows[id]) != PlateOf(t.rows[j]);
    }
  }

  /** `updateVehicle`. An absent id raises NotFound, and a plate another
      vehicle holds is a conflict. Otherwise the mapper patches the vehicle
      (NotFound for an unknown location), and only that row changes. Plates
      stay unique. */
  method UpdateVehicle(db: Database, id: int, u: VehicleUpdateDto) returns (r: Result<VehicleDto>)
    requires db.Valid()
    modifies db`vehicles
    ensures db.Valid()
    ensures r.Err? ==> db.vehicles == old(db.vehicles)
    ensures id !in old(db.vehicles.rows) ==> r == Err(NotFound(NotFoundText("Vehicle", id)))
    ensures id in old(db.vehicles.rows) && PlateConflict(old(db.vehicles), id, u) ==>
              r == Err(Conflict(PlateTakenText(u.licensePlate.value)))
    ensures id in old(db.vehicles.rows) && !PlateConflict(old(db.vehicles), id, u) ==>
              var v := UpdateVehicleFromDto(u, old(db.vehicles.rows[id]), db.locations);
              && (v.Ok? ==> db.vehicles.rows == old(db.vehicles.rows)[id := v.value] && db.vehicles.next == old(db.vehicles.next)
                            && r == Ok(ToVehicleDto(Row(id, v.value))))
              && (v.Err? ==> r == Err(v.error))
  {
    if id !in db.vehicles.rows {
      return Err(NotFound(NotFoundText("Vehicle", id)));
    }
    if PlateConflict(db.vehicles, id, u) {
      return Err(Conflict(PlateTakenText(u.licensePlate.value)));
    }
    var v := UpdateVehicleFromDto(u, db.vehicles.rows[id], db.locations);
    if v.Err? {
      return Err(v.error);
    }
    if u.licensePlate.Some? {
      PlateConflictExact(db.vehicles, id, u);
    } else {
      PlateConflictExact(db.vehicles, id, u.(licensePlate := Some(db.vehicles.rows[id].licensePlate)));
    }
    SaveKeepsUnique(db.vehicles, PlateOf, id, v.value);
    db.vehicles := Save(db.vehicles, id, v.value);
    r := Ok(ToVehicleDto(Row(id, v.value)));
  }

  /** `deleteVehicle`. An absent id raises NotFound. Otherwise exactly that
      row is removed. */
  method DeleteVehicle(db: Database, id: int) returns (r: Result<()>)
    requires db.Valid()
    modifies db`vehicles
    ensures db.Valid()
    ensures id !in old(db.vehicles.rows) ==>
              r == Err(NotFound(NotFoundText("Vehicle", id))) && db.vehicles == old(db.vehicles)
    ensures id in old(db.vehicles.rows) ==>
              r.Ok? && db.vehicles.rows == old(db.vehicles.rows) - {id} && db.vehicles.next == old(db.vehicles.next)
  {
    if id !in db.vehicles.rows {
      return Err(NotFound(NotFoundText("Vehicle", id)));
    }
    RemoveKeepsUnique(db.vehicles, PlateOf, id);
    db.vehicles := Remove(db.vehicles, id);
    r := Ok(());
  }
}
