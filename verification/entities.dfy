/** The JPA entities of the rental backend and the database that holds one
    table of each. An entity is a value; its id is its key in the table and a
    reference to another entity is that entity's id. */
module Entities {
  import opened Base
  import opened Tables

  /** `Role`: a named role such as "USER". */
  datatype Role = Role(roleName: string)

  /** `User`; the password column holds the encoded password and may be null. */
  datatype User = User(
    password: Option<string>,
    email: string,
    fullName: string,
    phoneNumber: Option<string>,
    role: Option<int>)

  /** `Location`: a pick-up place, unique by (name, address). */
  datatype Location = Location(name: string, address: string)

  /** `Vehicle`; `licensePlate` is a unique column, the prices are nullable. */
  datatype Vehicle = Vehicle(
    name: string,
    brand: string,
    vehicleType: string,
    licensePlate: string,
    status: string,
    location: int,
    pricePerDay: Option<Decimal>,
    pricePerMonth: Option<Decimal>,
    pricePerYear: Option<Decimal>)

  /** `Rental`: a user renting a vehicle over a period. */
  datatype Rental = Rental(
    user: int,
    vehicle: int,
    startTime: Timestamp,
    endTime: Timestamp,
    totalPrice: Decimal,
    status: string,
    createdAt: Timestamp)

  /** `Review` of a rental by a user. */
  datatype Review = Review(
    rental: int,
    user: int,
    rating: int,
    comment: Option<string>,
    createdAt: Timestamp)

  /** `Payment` of a rental by a user. */
  datatype Payment = Payment(
    rental: int,
    user: int,
    amount: Decimal,
    paymentMethod: string,
    paymentDate: Timestamp,
    status: string,
    createdAt: Timestamp)

  /** The unique columns, as keys for `Tables.Unique`. */
  function PlateOf(v: Vehicle): Option<string> { Some(v.licensePlate) }
  function PlaceOf(l: Location): Option<(string, string)> { Some((l.name, l.address)) }
  function RoleNameOf(r: Role): Option<string> { Some(r.roleName) }
  function EmailOf(u: User): Option<string> { Some(u.email) }
  function PhoneOf(u: User): Option<string> { u.phoneNumber }

  /** The name of the role a user refers to; no role, or a reference to a
      role that is no longer stored, has no name. */
  function RoleName(roles: Table<Role>, role: Option<int>): (r: Option<string>)
    ensures r.Some? <==> role.Some? && role.value in roles.rows
    ensures r.Some? ==> r.value == roles.rows[role.value].roleName
  {
    if role.Some? && role.value in roles.rows then Some(roles.rows[role.value].roleName) else None
  }

  /** The database: one table per repository. */
  class Database {
    var users: Table<User>
    var roles: Table<Role>
    var locations: Table<Location>
    var vehicles: Table<Vehicle>
    var rentals: Table<Rental>
    var reviews: Table<Review>
    var payments: Table<Payment>

    /** Every table's ids come from its IDENTITY column, and the unique
        columns hold no duplicates: license plates, (name, address) pairs,
        role names and e-mail addresses. Phone numbers are not a unique
        column; only the user controller's create checks them. */
    ghost predicate Valid()
      reads this
    {
      && WellFormed(users) && WellFormed(roles) && WellFormed(locations) && WellFormed(vehicles)
      && WellFormed(rentals) && WellFormed(reviews) && WellFormed(payments)
      && Unique(vehicles, PlateOf) && Unique(locations, PlaceOf) && Unique(roles, RoleNameOf)
      && Unique(users, EmailOf)
    }

    constructor ()
      ensures Valid()
      ensures users == Empty() && roles == Empty() && locations == Empty() && vehicles == Empty()
      ensures rentals == Empty() && reviews == Empty() && payments == Empty()
    {
      users := Empty();
      roles := Empty();
      locations := Empty();
      vehicles := Empty();
      rentals := Empty();
      reviews := Empty();
      payments := Empty();
    }
  }
}
