/** The MapStruct mappers between request bodies and entities. They share one
    configuration: a property the body leaves null does not overwrite the
    entity's value. A foreign key is resolved through the referenced table,
    and an unknown id raises NotFound. The generated code resolves the
    references in the order the entity declares them. */

module PaymentMapper {
  import opened Base
  import opened Tables
  import opened Entities
  import opened Dtos

  /** The body fields a payment row needs. Validation guarantees all but the
      status, and the service fills the status in before mapping. */
  predicate Complete(d: PaymentDto) {
    d.rentalId.Some? && d.userId.Some? && d.amount.Some? && d.paymentMethod.Some? && d.paymentDate.Some? && d.status.Some?
  }

  /** `toPayment`. It resolves the rental and then the user, and copies the
      other fields. The creation time defaults to `now`. */
  function ToPayment(d: PaymentDto, rentals: Table<Rental>, users: Table<User>, now: Timestamp): (r: Result<Payment>)
    requires Complete(d)
    ensures r.Ok? <==> d.rentalId.value in rentals.rows && d.userId.value in users.rows
    ensures d.rentalId.value !in rentals.rows ==>
              r == Err(NotFound(NotFoundText("Rental", d.rentalId.value)))
    ensures d.rentalId.value in rentals.rows && d.userId.value !in users.rows ==>
              r == Err(NotFound(NotFoundText("User", d.userId.value)))
    ensures r.Ok? ==> r.value.createdAt == d.createdAt.GetOr(now)
  {
    var rental := FindReference(rentals, d.rentalId, "Rental");
    var user := FindReference(users, d.userId, "User");
    if rental.Err? then Err(rental.error)
    else if user.Err? then Err(user.error)
    else Ok(Payment(rental.value.value, user.value.value, d.amount.value, d.paymentMethod.value, d.paymentDate.value, d.status.value,
               d.createdAt.GetOr(now)))
  }

  /** `toPaymentDto`: every column, and the row's id. */
  function ToPaymentDto(row: Row<Payment>): (d: PaymentDto)
    ensures Complete(d) && d.id == Some(row.id)
  {
    var p := row.value;
    PaymentDto(Some(row.id), Some(p.rental), Some(p.user), Some(p.amount), Some(p.paymentMethod), Some(p.paymentDate),
               Some(p.status), Some(p.createdAt))
  }

  /** A body whose references resolve comes back from the store unchanged,
      except for the id the store generated and the creation time it was
      given. */
  lemma PaymentDtoRoundTrip(d: PaymentDto, rentals: Table<Rental>, users: Table<User>, now: Timestamp, id: int)
    requires Complete(d) && ToPayment(d, rentals, users, now).Ok?
    ensures ToPaymentDto(Row(id, ToPayment(d, rentals, users, now).value)) ==
              d.(id := Some(id), createdAt := Some(d.createdAt.GetOr(now)))
  {
  }

  /** A stored payment whose references exist maps to a body that maps back to it. */
  lemma PaymentRoundTrip(row: Row<Payment>, rentals: Table<Rental>, users: Table<User>, now: Timestamp)
    requires row.value.rental in rentals.rows && row.value.user in users.rows
    ensures ToPayment(ToPaymentDto(row), rentals, users, now) == Ok(row.value)
  {
  }

  /** `updatePaymentFromDto`. A given rental or user id is resolved, and a
      null one keeps the current reference. Every other non-null field
      overwrites the payment's field. The creation time is never touched. */
  function UpdatePaymentFromDto(u: PaymentUpdateDto, p: Payment, rentals: Table<Rental>, users: Table<User>): (r: Result<Payment>)
    ensures r.Ok? <==> (u.rentalId.Some? ==> u.rentalId.value in rentals.rows) && (u.userId.Some? ==> u.userId.value in users.rows)
    ensures r.Err? ==> r.error.NotFound?
    ensures r.Ok? ==> r.value.createdAt == p.createdAt
    ensures r.Ok? ==> (u.rentalId.None? ==> r.value.rental == p.rental) && (u.rentalId.Some? ==> r.value.rental == u.rentalId.value)
    ensures r.Ok? ==> (u.userId.None? ==> r.value.user == p.user) && (u.userId.Some? ==> r.value.user == u.userId.value)
    ensures r.Ok? ==> (u.amount.None? ==> r.value.amount == p.amount) && (u.amount.Some? ==> r.value.amount == u.amount.value)
    ensures r.Ok? ==> ((u.paymentMethod.None? ==> r.value.paymentMethod == p.paymentMethod)
                   && (u.paymentMethod.Some? ==> r.value.paymentMethod == u.paymentMethod.value))
    ensures r.Ok? ==> ((u.paymentDate.None? ==> r.value.paymentDate == p.paymentDate)
                   && (u.paymentDate.Some? ==> r.value.paymentDate == u.paymentDate.value))
    ensures r.Ok? ==> (u.status.None? ==> r.value.status == p.status) && (u.status.Some? ==> r.value.status == u.status.value)
  {
    var rental :- if u.rentalId.Some? then FindReference(rentals, u.rentalId, "Rental") else Ok(Some(p.rental));
    var user :- if u.userId.Some? then FindReference(users, u.userId, "User") else Ok(Some(p.user));
    Ok(Payment(rental.value, user.value, u.amount.GetOr(p.amount), u.paymentMethod.GetOr(p.paymentMethod),
               u.paymentDate.GetOr(p.paymentDate), u.status.GetOr(p.status), p.createdAt))
  }

  /** An update that sets nothing leaves the payment as it is. */
  lemma EmptyPaymentUpdate(p: Payment, rentals: Table<Rental>, users: Table<User>)
    ensures UpdatePaymentFromDto(PaymentUpdateDto(None, None, None, None, None, None), p, rentals, users) == Ok(p)
  {
  }

  /** Applying the same update twice changes nothing more than applying it once. */
  lemma PaymentUpdateIdempotent(u: PaymentUpdateDto, p: Payment, rentals: Table<Rental>, users: Table<User>)
    requires UpdatePaymentFromDto(u, p, rentals, users).Ok?
    ensures var q := UpdatePaymentFromDto(u, p, rentals, users).value;
            UpdatePaymentFromDto(u, q, rentals, users) == Ok(q)
  {
  }
}

module RentalMapper {
  import opened Base
  import opened Tables
  import opened Entities
  import opened Dtos

  /** The body fields a rental row needs; validation guarantees them. */
  predicate Complete(d: RentalDto) {
    d.userId.Some? && d.vehicleId.Some? && d.startTime.Some? && d.endTime.Some? && d.totalPrice.Some? && d.status.Some?
  }

  /** `toRental`. It resolves the user and then the vehicle, and copies the
      period, the price and the status. The creation time defaults to `now`. */
  function ToRental(d: RentalDto, users: Table<User>, vehicles: Table<Vehicle>, now: Timestamp): (r: Result<Rental>)
    requires Complete(d)
    ensures r.Ok? <==> d.userId.value in users.rows && d.vehicleId.value in vehicles.rows
    ensures d.userId.value !in users.rows ==>
              r == Err(NotFound(NotFoundText("User", d.userId.value)))
    ensures d.userId.value in users.rows && d.vehicleId.value !in vehicles.rows ==>
              r == Err(NotFound(NotFoundText("Vehicle", d.vehicleId.value)))
    ensures r.Ok? ==> r.value.createdAt == d.createdAt.GetOr(now)
  {
    var user :- FindReference(users, d.userId, "User");
    var vehicle :- FindReference(vehicles, d.vehicleId, "Vehicle");
    Ok(Rental(user.value, vehicle.value, d.startTime.value, d.endTime.value, d.totalPrice.value, d.status.value,
              d.createdAt.GetOr(now)))
  }

  /** `toRentalDto`: every column, and the row's id. */
  function ToRentalDto(row: Row<Rental>): (d: RentalDto)
    ensures Complete(d) && d.id == Some(row.id)
  {
    var x := row.value;
    RentalDto(Some(row.id), Some(x.user), Some(x.vehicle), Some(x.startTime), Some(x.endTime), Some(x.totalPrice),
              Some(x.status), Some(x.createdAt))
  }

  /** A body whose references resolve comes back with the same user, vehicle,
      period, price and status; only the id and the defaulted creation time
      are new. */
  lemma RentalDtoRoundTrip(d: RentalDto, users: Table<User>, vehicles: Table<Vehicle>, now: Timestamp, id: int)
    requires Complete(d) && ToRental(d, users, vehicles, now).Ok?
    ensures ToRentalDto(Row(id, ToRental(d, users, vehicles, now).value)) ==
              d.(id := Some(id), createdAt := Some(d.createdAt.GetOr(now)))
  {
  }

  /** A stored rental whose references exist maps to a body that maps back to it. */
  lemma RentalRoundTrip(row: Row<Rental>, users: Table<User>, vehicles: Table<Vehicle>, now: Timestamp)
    requires row.value.user in users.rows && row.value.vehicle in vehicles.rows
    ensures ToRental(ToRentalDto(row), users, vehicles, now) == Ok(row.value)
  {
  }

  /** `updateRentalFromDto`. A given user or vehicle id is resolved, and a
      null one keeps the current reference. Every other non-null field
      overwrites the rental's field. The creation time is never touched. */
  function UpdateRentalFromDto(u: RentalUpdateDto, x: Rental, users: Table<User>, vehicles: Table<Vehicle>): (r: Result<Rental>)
    ensures r.Ok? <==> (u.userId.Some? ==> u.userId.value in users.rows) && (u.vehicleId.Some? ==> u.vehicleId.value in vehicles.rows)
    ensures r.Err? ==> r.error.NotFound?
    ensures r.Ok? ==> r.value.createdAt == x.createdAt
    ensures r.Ok? ==> (u.userId.None? ==> r.value.user == x.user) && (u.userId.Some? ==> r.value.user == u.userId.value)
    ensures r.Ok? ==> (u.vehicleId.None? ==> r.value.vehicle == x.vehicle) && (u.vehicleId.Some? ==> r.value.vehicle == u.vehicleId.value)
    ensures r.Ok? ==> (u.startTime.None? ==> r.value.startTime == x.startTime) && (u.startTime.Some? ==> r.value.startTime == u.startTime.value)
    ensures r.Ok? ==> (u.endTime.None? ==> r.value.endTime == x.endTime) && (u.endTime.Some? ==> r.value.endTime == u.endTime.value)
    ensures r.Ok? ==> ((u.totalPrice.None? ==> r.value.totalPrice == x.totalPrice)
                   && (u.totalPrice.Some? ==> r.value.totalPrice == u.totalPrice.value))
    ensures r.Ok? ==> (u.status.None? ==> r.value.status == x.status) && (u.status.Some? ==> r.value.status == u.status.value)
  {
    var user :- if u.userId.Some? then FindReference(users, u.userId, "User") else Ok(Some(x.user));
    var vehicle :- if u.vehicleId.Some? then FindReference(vehicles, u.vehicleId, "Vehicle") else Ok(Some(x.vehicle));
    Ok(Rental(user.value, vehicle.value, u.startTime.GetOr(x.startTime), u.endTime.GetOr(x.endTime),
              u.totalPrice.GetOr(x.totalPrice), u.status.GetOr(x.status), x.createdAt))
  }

  /** An update that sets nothing leaves the rental as it is. */
  lemma EmptyRentalUpdate(x: Rental, users: Table<User>, vehicles: Table<Vehicle>)
    ensures UpdateRentalFromDto(RentalUpdateDto(None, None, None, None, None, None), x, users, vehicles) == Ok(x)
  {
  }

  /** Applying the same update twice changes nothing more than applying it once. */
  lemma RentalUpdateIdempotent(u: RentalUpdateDto, x: Rental, users: Table<User>, vehicles: Table<Vehicle>)
    requires UpdateRentalFromDto(u, x, users, vehicles).Ok?
    ensures var y := UpdateRentalFromDto(u, x, users, vehicles).value;
            UpdateRentalFromDto(u, y, users, vehicles) == Ok(y)
  {
  }
}

module VehicleMapper {
  import opened Base
  import opened Tables
  import opened Entities
  import opened Dtos

  /** The body fields a vehicle row needs; validation guarantees them. */
  predicate Complete(d: VehicleDto) {
    d.name.Some? && d.brand.Some? && d.vehicleType.Some? && d.licensePlate.Some? && d.status.Some? && d.locationId.Some?
  }

  /** `toVehicle`: resolves the location and copies every other field. */
  function ToVehicle(d: VehicleDto, locations: Table<Location>): (r: Result<Vehicle>)
    requires Complete(d)
    ensures r.Ok? <==> d.locationId.value in locations.rows
    ensures r.Err? ==> r.error == NotFound(NotFoundText("Location", d.locationId.value))
    ensures r.Ok? ==> r.value.licensePlate == d.licensePlate.value
  {
    var location :- FindReference(locations, d.locationId, "Location");
    Ok(Vehicle(d.name.value, d.brand.value, d.vehicleType.value, d.licensePlate.value, d.status.value, location.value,
               d.pricePerDay, d.pricePerMonth, d.pricePerYear))
  }

  /** `toVehicleDto`: every column, and the row's id. */
  function ToVehicleDto(row: Row<Vehicle>): (d: VehicleDto)
    ensures Complete(d) && d.id == Some(row.id)
  {
    var v := row.value;
    VehicleDto(Some(row.id), Some(v.name), Some(v.brand), Some(v.vehicleType), Some(v.licensePlate), Some(v.status),
               Some(v.location), v.pricePerDay, v.pricePerMonth, v.pricePerYear)
  }

  /** A body whose location resolves comes back with the same plate,
      location and prices (and every other field); only the id is new. */
  lemma VehicleDtoRoundTrip(d: VehicleDto, locations: Table<Location>, id: int)
    requires Complete(d) && ToVehicle(d, locations).Ok?
    ensures ToVehicleDto(Row(id, ToVehicle(d, locations).value)) == d.(id := Some(id))
  {
  }

  /** A stored vehicle whose location exists maps to a body that maps back to it. */
  lemma VehicleRoundTrip(row: Row<Vehicle>, locations: Table<Location>)
    requires row.value.location in locations.rows
    ensures ToVehicle(ToVehicleDto(row), locations) == Ok(row.value)
  {
  }

  /** `updateVehicleFromDto`. A given location id is resolved, and a null one
      keeps the current location. Every other non-null field overwrites the
      vehicle's field, the license plate included. */
  function UpdateVehicleFromDto(u: VehicleUpdateDto, v: Vehicle, locations: Table<Location>): (r: Result<Vehicle>)
    ensures r.Ok? <==> (u.locationId.Some? ==> u.locationId.value in locations.rows)
    ensures r.Err? ==> r.error.NotFound?
    ensures r.Ok? ==> (u.locationId.None? ==> r.value.location == v.location) && (u.locationId.Some? ==> r.value.location == u.locationId.value)
    ensures r.Ok? ==> ((u.licensePlate.None? ==> r.value.licensePlate == v.licensePlate)
                   && (u.licensePlate.Some? ==> r.value.licensePlate == u.licensePlate.value))
    ensures r.Ok? ==> (u.name.None? ==> r.value.name == v.name) && (u.name.Some? ==> r.value.name == u.name.value)
    ensures r.Ok? ==> (u.brand.None? ==> r.value.brand == v.brand) && (u.brand.Some? ==> r.value.brand == u.brand.value)
    ensures r.Ok? ==> ((u.vehicleType.None? ==> r.value.vehicleType == v.vehicleType)
                   && (u.vehicleType.Some? ==> r.value.vehicleType == u.vehicleType.value))
    ensures r.Ok? ==> (u.status.None? ==> r.value.status == v.status) && (u.status.Some? ==> r.value.status == u.status.value)
    ensures r.Ok? ==> (u.pricePerDay.None? ==> r.value.pricePerDay == v.pricePerDay) && (u.pricePerDay.Some? ==> r.value.pricePerDay == u.pricePerDay)
    ensures r.Ok? ==> ((u.pricePerMonth.None? ==> r.value.pricePerMonth == v.pricePerMonth)
                   && (u.pricePerMonth.Some? ==> r.value.pricePerMonth == u.pricePerMonth))
    ensures r.Ok? ==> ((u.pricePerYear.None? ==> r.value.pricePerYear == v.pricePerYear)
                   && (u.pricePerYear.Some? ==> r.value.pricePerYear == u.pricePerYear))
  {
    var location := if u.locationId.Some? then FindReference(locations, u.locationId, "Location") else Ok(Some(v.location));
    if location.Err? then Err(location.error)
    else Ok(Vehicle(u.name.GetOr(v.name), u.brand.GetOr(v.brand), u.vehicleType.GetOr(v.vehicleType),
               u.licensePlate.GetOr(v.licensePlate), u.status.GetOr(v.status), location.value.value,
               if u.pricePerDay.Some? then u.pricePerDay else v.pricePerDay,
               if u.pricePerMonth.Some? then u.pricePerMonth else v.pricePerMonth,
               if u.pricePerYear.Some? then u.pricePerYear else v.pricePerYear))
  }

  /** An update that sets nothing leaves the vehicle as it is. */
  lemma EmptyVehicleUpdate(v: Vehicle, locations: Table<Location>)
    ensures UpdateVehicleFromDto(VehicleUpdateDto(None, None, None, None, None, None, None, None, None), v, locations) == Ok(v)
  {
  }

  /** Applying the same update twice changes nothing more than applying it once. */
  lemma VehicleUpdateIdempotent(u: VehicleUpdateDto, v: Vehicle, locations: Table<Location>)
    requires UpdateVehicleFromDto(u, v, locations).Ok?
    ensures var w := UpdateVehicleFromDto(u, v, locations).value;
            UpdateVehicleFromDto(u, w, locations) == Ok(w)
  {
  }
}

module UserProfileMapper {
  import opened Base
  import opened Tables
  import opened Entities
  import opened Dtos

  /** `toUserProfileDto`. A null user maps to null. Otherwise the id, name,
      e-mail and phone are copied, and the role becomes its name (null when
      the user has no role). */
  function ToUserProfileDto(user: Option<Row<User>>, roles: Table<Role>): (r: Option<UserProfileDto>)
    ensures r.None? <==> user.None?
    ensures r.Some? ==> (r.value.id == user.value.id && r.value.fullName == user.value.value.fullName
                     && r.value.email == user.value.value.email && r.value.phoneNumber == user.value.value.phoneNumber)
    ensures r.Some? ==> (r.value.role.Some? <==> user.value.value.role.Some? && user.value.value.role.value in roles.rows)
    ensures r.Some? && r.value.role.Some? ==> r.value.role.value == roles.rows[user.value.value.role.value].roleName
  {
    match user
    case None => None
    case Some(row) =>
      var u := row.value;
      Some(UserProfileDto(row.id, u.fullName, u.email, u.phoneNumber, RoleName(roles, u.role)))
  }

  /** The profile never shows the password: two users that differ only in
      their password have the same profile. */
  lemma ProfileHidesPassword(id: int, u: User, password: Option<string>, roles: Table<Role>)
    ensures ToUserProfileDto(Some(Row(id, u)), roles) == ToUserProfileDto(Some(Row(id, u.(password := password))), roles)
  {
  }
}

module ReviewMapper {
  import opened Base
  import opened Tables
  import opened Entities
  import opened Dtos

  /** The body fields a review row needs besides the comment and creation time. */
  predicate Complete(d: ReviewDto) {
    d.rentalId.Some? && d.userId.Some? && d.rating.Some?
  }

  /** `toReview`. It resolves the rental and then the user, and copies the
      rating and comment. The creation time defaults to `now`. */
  function ToReview(d: ReviewDto, rentals: Table<Rental>, users: Table<User>, now: Timestamp): (r: Result<Review>)
    requires Complete(d)
    ensures r.Ok? <==> d.rentalId.value in rentals.rows && d.userId.value in users.rows
    ensures d.rentalId.value !in rentals.rows ==>
              r == Err(NotFound(NotFoundText("Rental", d.rentalId.value)))
    ensures d.rentalId.value in rentals.rows && d.userId.value !in users.rows ==>
              r == Err(NotFound(NotFoundText("User", d.userId.value)))
    ensures r.Ok? ==> r.value.createdAt == d.createdAt.GetOr(now)
  {
    var rental := FindReference(rentals, d.rentalId, "Rental");
    var user := FindReference(users, d.userId, "User");
    if rental.Err? then Err(rental.error)
    else if user.Err? then Err(user.error)
    else Ok(Review(rental.value.value, user.value.value, d.rating.value, d.comment, d.createdAt.GetOr(now)))
  }

  /** `toReviewDto`: every column, and the row's id. */
  function ToReviewDto(row: Row<Review>): (d: ReviewDto)
    ensures Complete(d) && d.id == Some(row.id)
  {
    var v := row.value;
    ReviewDto(Some(row.id), Some(v.rental), Some(v.user), Some(v.rating), v.comment, Some(v.createdAt))
  }

  /** A body whose references resolve comes back from the store unchanged,
      except for the generated id and the creation time. */
  lemma ReviewDtoRoundTrip(d: ReviewDto, rentals: Table<Rental>, users: Table<User>, now: Timestamp, id: int)
    requires Complete(d) && ToReview(d, rentals, users, now).Ok?
    ensures ToReviewDto(Row(id, ToReview(d, rentals, users, now).value)) ==
              d.(id := Some(id), createdAt := Some(d.createdAt.GetOr(now)))
  {
  }

  /** A stored review whose references exist maps to a body that maps back to it. */
  lemma ReviewRoundTrip(row: Row<Review>, rentals: Table<Rental>, users: Table<User>, now: Timestamp)
    requires row.value.rental in rentals.rows && row.value.user in users.rows
    ensures ToReview(ToReviewDto(row), rentals, users, now) == Ok(row.value)
  {
  }

  /** `updateReviewFromDto`: a non-null rating or comment overwrites the
      review's; the references and the creation time are never touched. */
  function UpdateReviewFromDto(u: ReviewUpdateDto, v: Review): (r: Review)
    ensures r.rental == v.rental && r.user == v.user && r.createdAt == v.createdAt
    ensures u.rating.None? ==> r.rating == v.rating
    ensures u.rating.Some? ==> r.rating == u.rating.value
    ensures u.comment.None? ==> r.comment == v.comment
    ensures u.comment.Some? ==> r.comment == u.comment
  {
    v.(rating := u.rating.GetOr(v.rating), comment := if u.comment.Some? then u.comment else v.comment)
  }

  /** Applying the same update twice changes nothing more than applying it once. */
  lemma ReviewUpdateIdempotent(u: ReviewUpdateDto, v: Review)
    ensures UpdateReviewFromDto(u, UpdateReviewFromDto(u, v)) == UpdateReviewFromDto(u, v)
  {
  }
}

module LocationMapper {
  import opened Base
  import opened Tables
  import opened Entities
  import opened Dtos

  /** `toLocation`: the name and the address. */
  function ToLocation(d: LocationDto): (r: Location)
    requires d.name.Some? && d.address.Some?
    ensures PlaceOf(r) == Some((d.name.value, d.address.value))
  {
    Location(d.name.value, d.address.value)
  }

  /** `toLocationDto`: both columns, and the row's id. */
  function ToLocationDto(row: Row<Location>): (d: LocationDto)
    ensures d.id == Some(row.id) && d.name.Some? && d.address.Some?
  {
    LocationDto(Some(row.id), Some(row.value.name), Some(row.value.address))
  }

  /** A stored location maps to a body that maps back to it. */
  lemma LocationRoundTrip(row: Row<Location>)
    ensures ToLocation(ToLocationDto(row)) == row.value
  {
  }

  /** `updateLocationFromDto`: every non-null property of the body
      overwrites the entity's, the id included; a null one is kept. */
  function UpdateLocationFromDto(d: LocationDto, l: Row<Location>): (r: Row<Location>)
    ensures d.id.None? ==> r.id == l.id
    ensures d.id.Some? ==> r.id == d.id.value
    ensures d.name.None? ==> r.value.name == l.value.name
    ensures d.name.Some? ==> r.value.name == d.name.value
    ensures d.address.None? ==> r.value.address == l.value.address
    ensures d.address.Some? ==> r.value.address == d.address.value
  {
    Row(d.id.GetOr(l.id), Location(d.name.GetOr(l.value.name), d.address.GetOr(l.value.address)))
  }

  /** An all-null body changes nothing. */
  lemma EmptyLocationUpdate(l: Row<Location>)
    ensures UpdateLocationFromDto(LocationDto(None, None, None), l) == l
  {
  }

  /** Applying a body twice is applying it once. */
  lemma LocationUpdateIdempotent(d: LocationDto, l: Row<Location>)
    ensures UpdateLocationFromDto(d, UpdateLocationFromDto(d, l)) == UpdateLocationFromDto(d, l)
  {
  }

  /** The body of a stored location, applied to any entity, makes it that
      location, id included. */
  lemma LocationUpdateFromOwnDto(row: Row<Location>, l: Row<Location>)
    ensures UpdateLocationFromDto(ToLocationDto(row), l) == row
  {
  }
}
