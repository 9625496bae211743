/** The request and response bodies, and the Bean Validation constraints
    declared on them. A nullable field is an `Option`. For every validated
    body, `XViolations` lists the constraint violations the way the validator
    reports them (annotation by annotation, with the annotation's message) and
    `ValidX` states the same constraints directly; the two agree. */
module Dtos {
  import opened Base
  import opened Http

  datatype UserDto = UserDto(
    fullName: Option<string>,
    email: Option<string>,
    password: Option<string>,
    phoneNumber: Option<string>,
    roleId: Option<int>)

  datatype UserUpdateDto = UserUpdateDto(
    fullName: Option<string>,
    email: Option<string>,
    phoneNumber: Option<string>,
    roleId: Option<int>)

  datatype RoleDto = RoleDto(roleName: Option<string>)

  datatype PaymentDto = PaymentDto(
    id: Option<int>,
    rentalId: Option<int>,
    userId: Option<int>,
    amount: Option<Decimal>,
    paymentMethod: Option<string>,
    paymentDate: Option<Timestamp>,
    status: Option<string>,
    createdAt: Option<Timestamp>)

  datatype PaymentUpdateDto = PaymentUpdateDto(
    rentalId: Option<int>,
    userId: Option<int>,
    amount: Option<Decimal>,
    paymentMethod: Option<string>,
    paymentDate: Option<Timestamp>,
    status: Option<string>)

  datatype RentalDto = RentalDto(
    id: Option<int>,
    userId: Option<int>,
    vehicleId: Option<int>,
    startTime: Option<Timestamp>,
    endTime: Option<Timestamp>,
    totalPrice: Option<Decimal>,
    status: Option<string>,
    createdAt: Option<Timestamp>)

  datatype RentalUpdateDto = RentalUpdateDto(
    userId: Option<int>,
    vehicleId: Option<int>,
    startTime: Option<Timestamp>,
    endTime: Option<Timestamp>,
    totalPrice: Option<Decimal>,
    status: Option<string>)

  datatype VehicleDto = VehicleDto(
    id: Option<int>,
    name: Option<string>,
    brand: Option<string>,
    vehicleType: Option<string>,
    licensePlate: Option<string>,
    status: Option<string>,
    locationId: Option<int>,
    pricePerDay: Option<Decimal>,
    pricePerMonth: Option<Decimal>,
    pricePerYear: Option<Decimal>)

  datatype VehicleUpdateDto = VehicleUpdateDto(
    name: Option<string>,
    brand: Option<string>,
    vehicleType: Option<string>,
    licensePlate: Option<string>,
    status: Option<string>,
    locationId: Option<int>,
    pricePerDay: Option<Decimal>,
    pricePerMonth: Option<Decimal>,
    pricePerYear: Option<Decimal>)

  datatype LocationDto = LocationDto(id: Option<int>, name: Option<string>, address: Option<string>)

  datatype ReviewDto = ReviewDto(
    id: Option<int>,
    rentalId: Option<int>,
    userId: Option<int>,
    rating: Option<int>,
    comment: Option<string>,
    createdAt: Option<Timestamp>)

  datatype ReviewUpdateDto = ReviewUpdateDto(rating: Option<int>, comment: Option<string>)

  /** The body of a registration, after its `@NotEmpty` fields were checked. */
  datatype RegistrationRequest = RegistrationRequest(email: string, fullName: string, password: string)

  /** The profile view of a user: no password. */
  datatype UserProfileDto = UserProfileDto(
    id: int,
    fullName: string,
    email: string,
    phoneNumber: Option<string>,
    role: Option<string>)

  // ---------------------------------------------------------------------
  // The validator's checks

  /** `String.trim()` from the left: drops the leading characters at or below ' '. */
  function TrimStart(s: string): (t: string)
    ensures |t| <= |s| && t == s[|s| - |t|..]
    ensures t != [] ==> t[0] > ' '
    ensures t == [] <==> IsBlank(s)
  {
    if s != [] && s[0] <= ' ' then TrimStart(s[1..]) else s
  }

  /** `String.trim()` from the right: drops the trailing characters at or below ' '. */
  function TrimEnd(s: string): (t: string)
    ensures |t| <= |s| && t == s[..|t|]
    ensures t != [] ==> t[|t| - 1] > ' '
    ensures t == [] <==> IsBlank(s)
  {
    if s != [] && s[|s| - 1] <= ' ' then TrimEnd(s[..|s| - 1]) else s
  }

  /** `String.trim()`; it is empty exactly when the string is blank. */
  function Trim(s: string): (t: string)
    ensures |t| <= |s|
    ensures t != [] ==> t[0] > ' ' && t[|t| - 1] > ' '
    ensures t == [] <==> IsBlank(s)
  {
    var u := TrimStart(s);
    assert u != [] ==> !IsBlank(u) by {
      if u != [] {
        assert !(u[0] <= ' ');
      }
    }
    TrimEnd(u)
  }

  /** The length of the run of ASCII digits that starts `s`. */
  function DigitRun(s: string): (n: nat)
    ensures n <= |s|
    ensures forall i :: 0 <= i < n ==> IsDigit(s[i])
    ensures n < |s| ==> !IsDigit(s[n])
  {
    if s != [] && IsDigit(s[0]) then 1 + DigitRun(s[1..]) else 0
  }

  /** Whether the whole of `s` matches `^[0-9]{10,15}$`: the digit run eats
      the whole string and its length is within the repetition bounds. */
  predicate MatchesPhonePattern(s: string) {
    var n := DigitRun(s);
    n == |s| && 10 <= n <= 15
  }

  /** The phone-number format stated directly: 10 to 15 ASCII digits. */
  predicate IsPhoneNumber(s: string) {
    10 <= |s| <= 15 && forall i :: 0 <= i < |s| ==> IsDigit(s[i])
  }

  /** A string of digits only is one digit run. */
  lemma {:induction false} DigitRunOfDigits(s: string)
    requires forall i :: 0 <= i < |s| ==> IsDigit(s[i])
    ensures DigitRun(s) == |s|
  {
    if s != [] {
      assert forall i :: 0 <= i < |s[1..]| ==> s[1..][i] == s[i + 1];
      DigitRunOfDigits(s[1..]);
    }
  }

  lemma PhonePatternExact(s: string)
    ensures MatchesPhonePattern(s) <==> IsPhoneNumber(s)
  {
    if forall i :: 0 <= i < |s| ==> IsDigit(s[i]) {
      DigitRunOfDigits(s);
    }
  }

  lemma PhonePatternOkExact(s: Option<string>)
    ensures PhonePatternOk(s) <==> (s.Some? ==> IsPhoneNumber(s.value))
  {
    if s.Some? {
      PhonePatternExact(s.value);
    }
  }

  /** `@NotBlank`: non-null and something is left after `trim()`. */
  predicate NotBlankOk(s: Option<string>) { s.Some? && |Trim(s.value)| > 0 }

  /** `@NotNull`. */
  predicate NotNullOk<X>(x: Option<X>) { x.Some? }

  /** `@NotEmpty` on a string. */
  predicate NotEmptyOk(s: Option<string>) { s.Some? && |s.value| > 0 }

  /** `@Size(min, max)` on a string, which measures `String.length()`: null
      passes. */
  predicate SizeOk(s: Option<string>, min: nat, max: nat) { s.None? || min <= Utf16Length(s.value) <= max }

  /** `@Size(min)`: null passes. */
  predicate SizeMinOk(s: Option<string>, min: nat) { s.None? || min <= Utf16Length(s.value) }

  /** `@Pattern(regexp = "^[0-9]{10,15}$")`: null passes. */
  predicate PhonePatternOk(s: Option<string>) { s.None? || MatchesPhonePattern(s.value) }

  /** `@Email`: null passes; the address grammar is the validator's. */
  predicate EmailOk(s: Option<string>, isEmail: string -> bool) { s.None? || isEmail(s.value) }

  /** `@DecimalMin(value = "0.0", inclusive = false)`: null passes. */
  predicate PositiveOk(d: Option<Decimal>) { d.None? || d.value > 0.0 }

  /** The violation one annotation reports for one field. */
  function Check(ok: bool, field: string, message: string): set<FieldError> {
    if ok then {} else {FieldError(field, message)}
  }

  // ---------------------------------------------------------------------
  // UserDto

  predicate ValidUserDto(d: UserDto, isEmail: string -> bool) {
    && d.fullName.Some? && !IsBlank(d.fullName.value) && 2 <= Utf16Length(d.fullName.value) <= 100
    && d.email.Some? && !IsBlank(d.email.value) && isEmail(d.email.value)
    && (d.password.Some? ==> Utf16Length(d.password.value) >= 8)
    && (d.phoneNumber.Some? ==> IsPhoneNumber(d.phoneNumber.value))
  }

  function UserDtoViolations(d: UserDto, isEmail: string -> bool): (r: set<FieldError>)
    ensures r == {} <==> ValidUserDto(d, isEmail)
  {
    PhonePatternOkExact(d.phoneNumber);
    Check(NotBlankOk(d.fullName), "full_name", "Full name is required")
    + Check(SizeOk(d.fullName, 2, 100), "full_name", "Full name must be between 2 and 100 characters")
    + Check(NotBlankOk(d.email), "email", "Email is required")
    + Check(EmailOk(d.email, isEmail), "email", "Email should be valid")
    + Check(SizeMinOk(d.password, 8), "password", "Password must be at least 8 characters")
    + Check(PhonePatternOk(d.phoneNumber), "phone_number", "Phone number must be between 10 and 15 digits")
  }

  // ---------------------------------------------------------------------
  // UserUpdateDto

  predicate ValidUserUpdateDto(d: UserUpdateDto, isEmail: string -> bool) {
    && (d.fullName.Some? ==> 2 <= Utf16Length(d.fullName.value) <= 100)
    && (d.email.Some? ==> isEmail(d.email.value))
    && (d.phoneNumber.Some? ==> IsPhoneNumber(d.phoneNumber.value))
  }

  function UserUpdateDtoViolations(d: UserUpdateDto, isEmail: string -> bool): (r: set<FieldError>)
    ensures r == {} <==> ValidUserUpdateDto(d, isEmail)
  {
    PhonePatternOkExact(d.phoneNumber);
    Check(SizeOk(d.fullName, 2, 100), "full_name", "Full name must be between 2 and 100 characters")
    + Check(EmailOk(d.email, isEmail), "email", "Email should be valid")
    + Check(PhonePatternOk(d.phoneNumber), "phone_number", "Phone number must be between 10 and 15 digits")
  }

  /** An update that sets nothing is always accepted. */
  lemma EmptyUserUpdateAccepted(isEmail: string -> bool)
    ensures UserUpdateDtoViolations(UserUpdateDto(None, None, None, None), isEmail) == {}
  {
  }

  // ---------------------------------------------------------------------
  // RoleDto

  predicate ValidRoleDto(d: RoleDto) {
    d.roleName.Some? && !IsBlank(d.roleName.value) && 2 <= Utf16Length(d.roleName.value) <= 50
  }

  function RoleDtoViolations(d: RoleDto): (r: set<FieldError>)
    ensures r == {} <==> ValidRoleDto(d)
    ensures forall e :: e in r ==> e.field == "role_name"
  {
    Check(NotBlankOk(d.roleName), "role_name", "Role name is required")
    + Check(SizeOk(d.roleName, 2, 50), "role_name", "Role name must be between 2 and 50 characters")
  }

  /** Lengths are UTF-16 lengths: one character beyond U+FFFF is two units,
      enough for the two-character minimum. */
  lemma SurrogatePairMeetsMinimum()
    ensures RoleDtoViolations(RoleDto(Some("\U{1F600}"))) == {}
    ensures ValidRoleDto(RoleDto(Some("\U{1F600}")))
    ensures !ValidRoleDto(RoleDto(Some("a")))
  {
    assert Utf16Length("\U{1F600}") == 2;
    assert Utf16Length("a") == 1;
  }

  // ---------------------------------------------------------------------
  // PaymentDto and PaymentUpdateDto

  predicate ValidPaymentDto(d: PaymentDto) {
    && d.rentalId.Some? && d.userId.Some?
    && d.amount.Some? && d.amount.value > 0.0
    && d.paymentMethod.Some? && !IsBlank(d.paymentMethod.value)
    && d.paymentDate.Some?
  }

  function PaymentDtoViolations(d: PaymentDto): (r: set<FieldError>)
    ensures r == {} <==> ValidPaymentDto(d)
  {
    Check(NotNullOk(d.rentalId), "rental_id", "Rental ID is required")
    + Check(NotNullOk(d.userId), "user_id", "User ID is required")
    + Check(NotNullOk(d.amount), "amount", "Amount is required")
    + Check(PositiveOk(d.amount), "amount", "Amount must be greater than 0")
    + Check(NotBlankOk(d.paymentMethod), "payment_method", "Payment method is required")
    + Check(NotNullOk(d.paymentDate), "payment_date", "Payment date is required")
  }

  predicate ValidPaymentUpdateDto(d: PaymentUpdateDto) {
    d.amount.Some? ==> d.amount.value > 0.0
  }

  function PaymentUpdateDtoViolations(d: PaymentUpdateDto): (r: set<FieldError>)
    ensures r == {} <==> ValidPaymentUpdateDto(d)
  {
    Check(PositiveOk(d.amount), "amount", "Amount must be greater than 0")
  }

  // ---------------------------------------------------------------------
  // RentalDto and RentalUpdateDto

  /** Note what is NOT required: the status may be empty, and the start may
      lie after the end. */
  predicate ValidRentalDto(d: RentalDto) {
    && d.userId.Some? && d.vehicleId.Some?
    && d.startTime.Some? && d.endTime.Some?
    && d.totalPrice.Some? && d.totalPrice.value > 0.0
    && d.status.Some?
  }

  function RentalDtoViolations(d: RentalDto): (r: set<FieldError>)
    ensures r == {} <==> ValidRentalDto(d)
  {
    Check(NotNullOk(d.userId), "user_id", "User ID is required")
    + Check(NotNullOk(d.vehicleId), "vehicle_id", "Vehicle ID is required")
    + Check(NotNullOk(d.startTime), "start_time", "Start time is required")
    + Check(NotNullOk(d.endTime), "end_time", "End time is required")
    + Check(NotNullOk(d.totalPrice), "total_price", "Total price is required")
    + Check(PositiveOk(d.totalPrice), "total_price", "Total price must be greater than 0")
    + Check(NotNullOk(d.status), "status", "Status is required")
  }

  predicate ValidRentalUpdateDto(d: RentalUpdateDto) {
    d.totalPrice.Some? ==> d.totalPrice.value > 0.0
  }

  function RentalUpdateDtoViolations(d: RentalUpdateDto): (r: set<FieldError>)
    ensures r == {} <==> ValidRentalUpdateDto(d)
  {
    Check(PositiveOk(d.totalPrice), "total_price", "Total price must be greater than 0")
  }

  // ---------------------------------------------------------------------
  // VehicleDto and VehicleUpdateDto

  predicate ValidVehicleDto(d: VehicleDto) {
    && d.name.Some? && !IsBlank(d.name.value)
    && d.brand.Some? && !IsBlank(d.brand.value)
    && d.vehicleType.Some? && !IsBlank(d.vehicleType.value)
    && d.licensePlate.Some? && !IsBlank(d.licensePlate.value)
    && d.status.Some? && !IsBlank(d.status.value)
    && d.locationId.Some?
    && (d.pricePerDay.Some? ==> d.pricePerDay.value > 0.0)
    && (d.pricePerMonth.Some? ==> d.pricePerMonth.value > 0.0)
    && (d.pricePerYear.Some? ==> d.pricePerYear.value > 0.0)
  }

  function VehicleDtoViolations(d: VehicleDto): (r: set<FieldError>)
    ensures r == {} <==> ValidVehicleDto(d)
  {
    Check(NotBlankOk(d.name), "name", "Name is required")
    + Check(NotBlankOk(d.brand), "brand", "Brand is required")
    + Check(NotBlankOk(d.vehicleType), "type", "Type is required")
    + Check(NotBlankOk(d.licensePlate), "license_plate", "License plate is required")
    + Check(NotBlankOk(d.status), "status", "Status is required")
    + Check(NotNullOk(d.locationId), "location_id", "Location ID is required")
    + Check(PositiveOk(d.pricePerDay), "price_per_day", "Price per day must be greater than 0")
    + Check(PositiveOk(d.pricePerMonth), "price_per_month", "Price per month must be greater than 0")
    + Check(PositiveOk(d.pricePerYear), "price_per_year", "Price per year must be greater than 0")
  }

  predicate ValidVehicleUpdateDto(d: VehicleUpdateDto) {
    && (d.pricePerDay.Some? ==> d.pricePerDay.value > 0.0)
    && (d.pricePerMonth.Some? ==> d.pricePerMonth.value > 0.0)
    && (d.pricePerYear.Some? ==> d.pricePerYear.value > 0.0)
  }

  function VehicleUpdateDtoViolations(d: VehicleUpdateDto): (r: set<FieldError>)
    ensures r == {} <==> ValidVehicleUpdateDto(d)
  {
    Check(PositiveOk(d.pricePerDay), "price_per_day", "Price per day must be greater than 0")
    + Check(PositiveOk(d.pricePerMonth), "price_per_month", "Price per month must be greater than 0")
    + Check(PositiveOk(d.pricePerYear), "price_per_year", "Price per year must be greater than 0")
  }

  // ---------------------------------------------------------------------
  // LocationDto

  predicate ValidLocationDto(d: LocationDto) {
    d.name.Some? && !IsBlank(d.name.value) && d.address.Some? && !IsBlank(d.address.value)
  }

  function LocationDtoViolations(d: LocationDto): (r: set<FieldError>)
    ensures r == {} <==> ValidLocationDto(d)
  {
    Check(NotBlankOk(d.name), "name", "Name is required")
    + Check(NotBlankOk(d.address), "address", "Address is required")
  }
}
