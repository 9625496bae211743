# Green Move backend — a Dafny model

This project models the core of the Green Move vehicle-rental backend, a
Spring Boot REST service. It covers:

- users, roles, locations, vehicles, rentals, reviews and payments, kept in
  JPA repositories and modelled as id-keyed tables inside one `Database`
  object;
- the services and controllers that create, read, filter, update and delete
  these rows;
- the MapStruct mappers between request bodies and entities;
- the bean-validation constraints on the request bodies;
- the global exception handler;
- registration and the look-up of users for login;
- the permit-all / authenticated decision of the security filter chain.

Each repository is a `Tables.Table<T>`: a map from id to row, plus the next
id the database will hand out. `findAll` lists the rows in increasing id
order. A service or controller that changes the store is a `method` on the
`Database` class. It states the new tables in terms of the old ones: which
row is inserted, replaced or removed, and that a failure changes nothing.
Every such method also keeps `Database.Valid()`. That predicate holds the
unique columns the services guard: license plates, (name, address) pairs of
locations, role names and e-mails.

Pure logic is written as functions, each with lemmas against an independent
statement of what it should do. Examples:

- the filter built from a list of JPA predicates against a direct
  `Matches` predicate;
- each mapper against its inverse;
- each body validator against its set of violations;
- the security rule table against a direct list of public paths.

The password encoder, the e-mail format check and the clock are parameters.

Module layout, one module per source class:

- `Base`, `Tables`, `Entities`: the shared vocabulary.
- `Http`: responses and the exception handler.
- `Dtos`: the request bodies and their validators.
- `mappers.dfy`: one module per mapper.
- One module per service and per controller.
- `Security`: the filter chain.

All source paths below are under `src/main/java/com/rimmelasghar/boilerplate/springboot/`,
written out in full.

## Model

| member | source | states |
|---|---|---|
| PaymentService.PredicatesMeanMatches | src/main/java/com/rimmelasghar/boilerplate/springboot/service/Impl/PaymentServiceImpl.java:91-133 | the AND of the predicate list the JPA `Specification` builds holds exactly when every supplied constraint holds (`Matches`) |
| PaymentService.FindAllMatching | src/main/java/com/rimmelasghar/boilerplate/springboot/service/Impl/PaymentServiceImpl.java:87-135 | a row is returned iff it is stored and matches every supplied constraint; never more rows than the table |
| PaymentService.GetPaymentsWithFilters | src/main/java/com/rimmelasghar/boilerplate/springboot/service/Impl/PaymentServiceImpl.java:87-136 | the DTO of every matching payment is in the result, and every DTO in it is a stored, matching payment |
| PaymentService.GetAllPayments | src/main/java/com/rimmelasghar/boilerplate/springboot/service/Impl/PaymentServiceImpl.java:59-63 | one DTO per stored payment, each stored payment present, ids strictly increasing |
| PaymentService.NoCriteriaFindsAll | src/main/java/com/rimmelasghar/boilerplate/springboot/service/Impl/PaymentServiceImpl.java:92-130 | with every argument null the filter returns exactly the full listing |
| PaymentService.EmptyStringsIgnored | src/main/java/com/rimmelasghar/boilerplate/springboot/service/Impl/PaymentServiceImpl.java:105-111 | an empty status or payment method gives the same result as a null one |
| PaymentService.MoreCriteriaNarrow | src/main/java/com/rimmelasghar/boilerplate/springboot/service/Impl/PaymentServiceImpl.java:91-131 | adding constraints never enlarges the result: every row it returns is also returned by the looser filter, and there are no more of them |
| PaymentService.BoundsInclusive | src/main/java/com/rimmelasghar/boilerplate/springboot/service/Impl/PaymentServiceImpl.java:115-128 | amount and date bounds equal to the payment's own values accept it (both ends inclusive) |
| PaymentService.QueryIsFilter | src/main/java/com/rimmelasghar/boilerplate/springboot/service/Impl/PaymentServiceImpl.java:66-84 | a derived query with the same condition as the filter selects the same rows |
| PaymentService.GetPaymentsByUserId | src/main/java/com/rimmelasghar/boilerplate/springboot/service/Impl/PaymentServiceImpl.java:66-70 | equals the filter with only the user given |
| PaymentService.GetPaymentsByRentalId | src/main/java/com/rimmelasghar/boilerplate/springboot/service/Impl/PaymentServiceImpl.java:73-77 | equals the filter with only the rental given |
| PaymentService.GetPaymentsByStatus | src/main/java/com/rimmelasghar/boilerplate/springboot/service/Impl/PaymentServiceImpl.java:80-84 | every result has that status; for a non-empty status it equals the filter on status |
| PaymentService.GetPaymentById | src/main/java/com/rimmelasghar/boilerplate/springboot/service/Impl/PaymentServiceImpl.java:51-56 | found iff stored, with the stored payment's DTO; otherwise NotFound "Payment not found with id: …" |
| PaymentService.WithPaymentDefaults | src/main/java/com/rimmelasghar/boilerplate/springboot/service/Impl/PaymentServiceImpl.java:31-38 | created_at becomes now only when null; status becomes "PENDING" exactly when null or empty; no other field changes |
| PaymentService.CreatePayment | src/main/java/com/rimmelasghar/boilerplate/springboot/service/Impl/PaymentServiceImpl.java:29-48 | the defaulted, mapped payment is saved, over the stored payment with the body's id if there is one and under the next id otherwise, and returned with that id; a failed lookup stores nothing |
| PaymentService.UpdatePayment | src/main/java/com/rimmelasghar/boilerplate/springboot/service/Impl/PaymentServiceImpl.java:139-152 | absent id: NotFound, table unchanged; otherwise only that row becomes the mapper's update, same id |
| PaymentService.DeletePayment | src/main/java/com/rimmelasghar/boilerplate/springboot/service/Impl/PaymentServiceImpl.java:155-163 | absent id: NotFound, table unchanged; otherwise exactly that id is removed |
| RentalService.PredicatesMeanMatches | src/main/java/com/rimmelasghar/boilerplate/springboot/service/Impl/RentalServiceImpl.java:60-104 | the AND of the predicate list holds exactly when every supplied constraint holds |
| RentalService.FindAllMatching | src/main/java/com/rimmelasghar/boilerplate/springboot/service/Impl/RentalServiceImpl.java:60-104 | a row is returned iff it is stored and matches; never more rows than the table |
| RentalService.GetRentalsWithFilters | src/main/java/com/rimmelasghar/boilerplate/springboot/service/Impl/RentalServiceImpl.java:60-104 | the DTO of every matching rental is in the result, and every DTO in it is a stored, matching rental |
| RentalService.GetAllRentals | src/main/java/com/rimmelasghar/boilerplate/springboot/service/Impl/RentalServiceImpl.java:53-57 | one DTO per stored rental, ids strictly increasing |
| RentalService.NoCriteriaFindsAll | src/main/java/com/rimmelasghar/boilerplate/springboot/service/Impl/RentalServiceImpl.java:60-104 | with every argument null the filter returns the full listing |
| RentalService.EmptyStatusIgnored | src/main/java/com/rimmelasghar/boilerplate/springboot/service/Impl/RentalServiceImpl.java:78 | an empty status gives the same result as a null one |
| RentalService.MoreCriteriaNarrow | src/main/java/com/rimmelasghar/boilerplate/springboot/service/Impl/RentalServiceImpl.java:60-104 | adding constraints never enlarges the result |
| RentalService.CoveringRentalFound | src/main/java/com/rimmelasghar/boilerplate/springboot/service/Impl/RentalServiceImpl.java:83-96 | start and end bounds are inclusive; a rental covering a window is found by start-to and end-from |
| RentalService.GetRentalById | src/main/java/com/rimmelasghar/boilerplate/springboot/service/Impl/RentalServiceImpl.java:45-50 | found iff stored; otherwise NotFound "Rental not found with id: …" |
| RentalService.CreateRental | src/main/java/com/rimmelasghar/boilerplate/springboot/service/Impl/RentalServiceImpl.java:28-42 | created_at defaults to now; the mapped rental is saved over the stored rental with the body's id, or under the next id; the body is echoed with that id; a failed lookup stores nothing |
| RentalService.UpdateRental | src/main/java/com/rimmelasghar/boilerplate/springboot/service/Impl/RentalServiceImpl.java:107-120 | absent id: NotFound, unchanged; otherwise only that row becomes the mapper's update |
| RentalService.DeleteRental | src/main/java/com/rimmelasghar/boilerplate/springboot/service/Impl/RentalServiceImpl.java:123-131 | absent id: NotFound, unchanged; otherwise exactly that id is removed |
| ReviewService.PredicatesMeanMatches | src/main/java/com/rimmelasghar/boilerplate/springboot/service/Impl/ReviewServiceImpl.java:101-141 | the AND of the predicate list holds exactly when every supplied constraint holds |
| ReviewService.FindAllMatching | src/main/java/com/rimmelasghar/boilerplate/springboot/service/Impl/ReviewServiceImpl.java:101-141 | a row is returned iff it is stored and matches; never more rows than the table |
| ReviewService.GetReviewsWithFilters | src/main/java/com/rimmelasghar/boilerplate/springboot/service/Impl/ReviewServiceImpl.java:101-141 | the DTO of every matching review is in the result, and every DTO in it is a stored, matching review |
| ReviewService.GetAllReviews | src/main/java/com/rimmelasghar/boilerplate/springboot/service/Impl/ReviewServiceImpl.java:53-57 | one DTO per stored review, ids strictly increasing |
| ReviewService.NoCriteriaFindsAll | src/main/java/com/rimmelasghar/boilerplate/springboot/service/Impl/ReviewServiceImpl.java:101-141 | with every argument null the filter returns the full listing |
| ReviewService.MoreCriteriaNarrow | src/main/java/com/rimmelasghar/boilerplate/springboot/service/Impl/ReviewServiceImpl.java:101-141 | adding constraints never enlarges the result |
| ReviewService.InvertedRatingRangeEmpty | src/main/java/com/rimmelasghar/boilerplate/springboot/service/Impl/ReviewServiceImpl.java:117-124 | a minimum rating above the maximum selects nothing |
| ReviewService.QueryIsFilter | src/main/java/com/rimmelasghar/boilerplate/springboot/service/Impl/ReviewServiceImpl.java:60-71 | a derived query with the filter's condition selects the same rows |
| ReviewService.GetReviewsByUserId | src/main/java/com/rimmelasghar/boilerplate/springboot/service/Impl/ReviewServiceImpl.java:60-64 | equals the filter with only the user given |
| ReviewService.GetReviewsByRentalId | src/main/java/com/rimmelasghar/boilerplate/springboot/service/Impl/ReviewServiceImpl.java:67-71 | equals the filter with only the rental given |
| ReviewService.GetReviewById | src/main/java/com/rimmelasghar/boilerplate/springboot/service/Impl/ReviewServiceImpl.java:45-50 | found iff stored; otherwise NotFound "Review not found with id: …" |
| ReviewService.CreatedReview | src/main/java/com/rimmelasghar/boilerplate/springboot/service/Impl/ReviewServiceImpl.java:28-42 | succeeds iff rental, user and rating are given and both ids are stored; unknown rental first, then unknown user; otherwise a NOT NULL column failure |
| ReviewService.CreateReview | src/main/java/com/rimmelasghar/boilerplate/springboot/service/Impl/ReviewServiceImpl.java:28-42 | created_at defaults to now; on success the review is saved over the stored review with the body's id, or under the next id, and the body is echoed with that id; a failure stores nothing |
| ReviewService.UpdateReview | src/main/java/com/rimmelasghar/boilerplate/springboot/service/Impl/ReviewServiceImpl.java:74-87 | absent id: NotFound, unchanged; otherwise only that row changes, to the mapper's update |
| ReviewService.DeleteReview | src/main/java/com/rimmelasghar/boilerplate/springboot/service/Impl/ReviewServiceImpl.java:90-98 | absent id: NotFound, unchanged; otherwise exactly that id is removed |
| PaymentController.CreatePayment | src/main/java/com/rimmelasghar/boilerplate/springboot/controller/PaymentController.java:39-43 | invalid body: 400 with its violations, nothing stored; else 201 with the saved payment and its id (the body's id when stored, else a new one), or the handler's answer with nothing stored |
| PaymentController.GetPayment | src/main/java/com/rimmelasghar/boilerplate/springboot/controller/PaymentController.java:51-55 | 200 iff the id is stored, with its DTO; otherwise 404 with the not-found message |
| PaymentController.GetAllPayments | src/main/java/com/rimmelasghar/boilerplate/springboot/controller/PaymentController.java:61-86 | the no-parameter fast path and the filter path answer the same list: 200 with the filter's result |
| PaymentController.EmptyStatusListsAll | src/main/java/com/rimmelasghar/boilerplate/springboot/controller/PaymentController.java:61-86 | a request whose only parameter is an empty status lists every payment |
| PaymentController.GetPaymentsByUser | src/main/java/com/rimmelasghar/boilerplate/springboot/controller/PaymentController.java:92-96 | answers what the list endpoint answers for that user alone |
| PaymentController.GetPaymentsByRental | src/main/java/com/rimmelasghar/boilerplate/springboot/controller/PaymentController.java:102-106 | answers what the list endpoint answers for that rental alone |
| PaymentController.GetPaymentsWithStatus | src/main/java/com/rimmelasghar/boilerplate/springboot/controller/PaymentController.java:112-116 | for a non-empty status, answers what the list endpoint answers for that status alone |
| PaymentController.UpdatePayment | src/main/java/com/rimmelasghar/boilerplate/springboot/controller/PaymentController.java:125-131 | 400 then 404 then 200 with the updated row, each failure leaving the table unchanged |
| PaymentController.DeletePayment | src/main/java/com/rimmelasghar/boilerplate/springboot/controller/PaymentController.java:138-142 | 204 and the row removed, or 404 with nothing removed |
| RentalController.CreateRental | src/main/java/com/rimmelasghar/boilerplate/springboot/controller/RentalController.java:37-41 | invalid body: 400, nothing stored; else 201 echoing the body with the id it was saved under and its creation time, or the handler's answer |
| RentalController.GetRental | src/main/java/com/rimmelasghar/boilerplate/springboot/controller/RentalController.java:49-53 | 200 iff stored; otherwise 404 with the not-found message |
| RentalController.GetAllRentals | src/main/java/com/rimmelasghar/boilerplate/springboot/controller/RentalController.java:59-83 | fast path and filter path agree: 200 with the filter's result |
| RentalController.EmptyStatusListsAll | src/main/java/com/rimmelasghar/boilerplate/springboot/controller/RentalController.java:59-83 | a lone empty status lists every rental |
| RentalController.UpdateRental | src/main/java/com/rimmelasghar/boilerplate/springboot/controller/RentalController.java:92-98 | 400 then 404 then 200 with the updated row, each failure leaving the table unchanged |
| RentalController.DeleteRental | src/main/java/com/rimmelasghar/boilerplate/springboot/controller/RentalController.java:105-109 | 204 and the row removed, or 404 with nothing removed |
| ReviewController.CreateReview | src/main/java/com/rimmelasghar/boilerplate/springboot/controller/ReviewController.java:38-42 | 201 echoing the body with the id it was saved under and its creation time, or the handler's answer with nothing stored |
| ReviewController.GetReview | src/main/java/com/rimmelasghar/boilerplate/springboot/controller/ReviewController.java:50-54 | 200 iff stored; otherwise 404 with the not-found message |
| ReviewController.GetAllReviews | src/main/java/com/rimmelasghar/boilerplate/springboot/controller/ReviewController.java:60-80 | fast path and filter path agree: 200 with the filter's result |
| ReviewController.GetReviewsByUser | src/main/java/com/rimmelasghar/boilerplate/springboot/controller/ReviewController.java:86-90 | answers what the list endpoint answers for that user alone |
| ReviewController.GetReviewsByRental | src/main/java/com/rimmelasghar/boilerplate/springboot/controller/ReviewController.java:96-100 | answers what the list endpoint answers for that rental alone |
| ReviewController.UpdateReview | src/main/java/com/rimmelasghar/boilerplate/springboot/controller/ReviewController.java:109-115 | 404 with nothing changed, or 200 with the row replaced by the mapper's update |
| ReviewController.DeleteReview | src/main/java/com/rimmelasghar/boilerplate/springboot/controller/ReviewController.java:122-126 | 204 and the row removed, or 404 with nothing removed |
| VehicleService.GetVehicleById | src/main/java/com/rimmelasghar/boilerplate/springboot/service/Impl/VehicleServiceImpl.java:42-47 | found iff stored; otherwise NotFound "Vehicle not found with id: …" |
| VehicleService.GetAllVehicles | src/main/java/com/rimmelasghar/boilerplate/springboot/service/Impl/VehicleServiceImpl.java:84-92 | exactly one DTO per stored vehicle, in increasing id order |
| VehicleService.CreateVehicle | src/main/java/com/rimmelasghar/boilerplate/springboot/service/Impl/VehicleServiceImpl.java:25-39 | a plate in use: Conflict, nothing saved; else the vehicle is saved over the stored vehicle with the body's id, or under the next id, and echoed with that id; plates stay unique |
| VehicleService.PlateConflictExact | src/main/java/com/rimmelasghar/boilerplate/springboot/service/Impl/VehicleServiceImpl.java:56-60 | the update's check rejects exactly a plate held by another vehicle; the vehicle's own plate passes |
| VehicleService.UpdateVehicle | src/main/java/com/rimmelasghar/boilerplate/springboot/service/Impl/VehicleServiceImpl.java:50-70 | absent id: NotFound; plate held elsewhere: Conflict; any failure leaves the table unchanged; otherwise only that row changes and plates stay unique |
| VehicleService.DeleteVehicle | src/main/java/com/rimmelasghar/boilerplate/springboot/service/Impl/VehicleServiceImpl.java:73-81 | absent id: NotFound, unchanged; otherwise exactly that id is removed |
| LocationService.GetLocationById | src/main/java/com/rimmelasghar/boilerplate/springboot/service/Impl/LocationServiceImpl.java:39-44 | found iff stored; otherwise NotFound "Location not found with id: …" |
| LocationService.CreateLocation | src/main/java/com/rimmelasghar/boilerplate/springboot/service/Impl/LocationServiceImpl.java:21-36 | a (name, address) pair in use: Conflict, nothing saved; else the location is saved over the stored location with the body's id, or under the next id; pairs stay unique |
| LocationService.PlaceConflictExact | src/main/java/com/rimmelasghar/boilerplate/springboot/service/Impl/LocationServiceImpl.java:53-58 | the update's check rejects exactly a pair held by another location; keeping both name and address passes |
| LocationService.UpdateLocation | src/main/java/com/rimmelasghar/boilerplate/springboot/service/Impl/LocationServiceImpl.java:47-69 | absent id: NotFound; a pair held elsewhere: Conflict; a body id other than the path's: the save is refused (identifier altered) and nothing changes; otherwise only that row gets the new name and address; pairs stay unique |
| LocationService.DeleteLocation | src/main/java/com/rimmelasghar/boilerplate/springboot/service/Impl/LocationServiceImpl.java:72-80 | absent id: NotFound, unchanged; otherwise exactly that id is removed |
| RoleService.GetAllRoles | src/main/java/com/rimmelasghar/boilerplate/springboot/service/Impl/RoleServiceImpl.java:23-25 | every stored role exactly once, in increasing id order |
| RoleService.GetRoleByName | src/main/java/com/rimmelasghar/boilerplate/springboot/service/Impl/RoleServiceImpl.java:61-63 | present iff some role has the name; with unique names it is that role |
| RoleService.RoleNameExists | src/main/java/com/rimmelasghar/boilerplate/springboot/service/Impl/RoleServiceImpl.java:56-58 | true iff `getRoleByName` finds a role, iff some stored role has the name |
| RoleService.SaveRole | src/main/java/com/rimmelasghar/boilerplate/springboot/service/Impl/RoleServiceImpl.java:33-35 | a new name is inserted under the next id; a name in use is rejected by the unique column, nothing stored |
| RoleService.UpdateRole | src/main/java/com/rimmelasghar/boilerplate/springboot/service/Impl/RoleServiceImpl.java:38-48 | absent id: empty, no write; otherwise only the role name changes, under the same id |
| RoleService.DeleteRole | src/main/java/com/rimmelasghar/boilerplate/springboot/service/Impl/RoleServiceImpl.java:51-53 | no check of its own: the repository fails on an absent id; otherwise exactly that id is removed |
| RoleController.BindingErrorsOnRoleName | src/main/java/com/rimmelasghar/boilerplate/springboot/controller/RoleController.java:52-57 | an invalid role body yields a map whose only key is role_name, holding one of its two messages |
| RoleController.SameNameElsewhere | src/main/java/com/rimmelasghar/boilerplate/springboot/controller/RoleController.java:145-147 | finds a role iff another id holds the name |
| RoleController.CreateRole | src/main/java/com/rimmelasghar/boilerplate/springboot/controller/RoleController.java:49-74 | 400 for binding errors, then 409 for a name in use, both with no write; otherwise 201 with the one inserted role |
| RoleController.GetRoleById | src/main/java/com/rimmelasghar/boilerplate/springboot/controller/RoleController.java:97-108 | 200 with the role, or 404 "Role not found" |
| RoleController.UpdateRole | src/main/java/com/rimmelasghar/boilerplate/springboot/controller/RoleController.java:121-161 | 400, then 404, then 409 only for a name another role holds, all with no write; otherwise 200 and the role renamed in place |
| RoleController.RenameToOwnNameAllowed | src/main/java/com/rimmelasghar/boilerplate/springboot/controller/RoleController.java:145-153 | keeping a role's own name never counts as a conflict |
| RoleController.DeleteRole | src/main/java/com/rimmelasghar/boilerplate/springboot/controller/RoleController.java:172-186 | 404 with nothing removed, or 204 with the role removed |
| UserService.EncodePassword | src/main/java/com/rimmelasghar/boilerplate/springboot/service/Impl/UserServiceImpl.java:38-40 | a non-null, non-empty password becomes its encoding; a null or empty one is kept |
| Tables.Find | src/main/java/com/rimmelasghar/boilerplate/springboot/service/Impl/UserServiceImpl.java:31-33 | `getUserById` and `getRoleById` (RoleServiceImpl.java:28-30) return `findById`: present iff stored, with the stored row |
| UserService.ExistsByEmail | src/main/java/com/rimmelasghar/boilerplate/springboot/service/Impl/UserServiceImpl.java:86-88 | true iff some stored user has the e-mail |
| UserService.ExistsByPhoneNumber | src/main/java/com/rimmelasghar/boilerplate/springboot/service/Impl/UserServiceImpl.java:93-95 | true iff some stored user has that phone number |
| UserService.SaveUser | src/main/java/com/rimmelasghar/boilerplate/springboot/service/Impl/UserServiceImpl.java:36-42 | stores the user with its password encoded: overwrite for a stored id, insert otherwise; an e-mail held by another user is rejected with no write |
| UserService.SaveEncodesStoredHash | src/main/java/com/rimmelasghar/boilerplate/springboot/service/Impl/UserServiceImpl.java:36-42 | saving an already-saved user stores encode(encode(password)) |
| UserService.Patched | src/main/java/com/rimmelasghar/boilerplate/springboot/service/Impl/UserServiceImpl.java:52-72 | name, e-mail, phone and role are overwritten exactly when given; the password is re-encoded only when non-empty |
| UserService.PatchedProperties | src/main/java/com/rimmelasghar/boilerplate/springboot/service/Impl/UserServiceImpl.java:52-72 | an all-null patch changes nothing; patching twice equals patching once |
| UserService.UpdateUser | src/main/java/com/rimmelasghar/boilerplate/springboot/service/Impl/UserServiceImpl.java:45-78 | absent id: empty, no write; otherwise the patched user replaces the row, unless its e-mail is another user's |
| UserService.DeleteUser | src/main/java/com/rimmelasghar/boilerplate/springboot/service/Impl/UserServiceImpl.java:81-83 | no check of its own: the repository fails on an absent id; otherwise exactly that id is removed |
| UserController.DefaultRole | src/main/java/com/rimmelasghar/boilerplate/springboot/controller/UserController.java:89-98 | the "USER" role's id when such a role is stored, and no role otherwise |
| UserController.NewUser | src/main/java/com/rimmelasghar/boilerplate/springboot/controller/UserController.java:80-98 | the body's name, e-mail, password and phone; the requested role, or the default one |
| UserController.CreateUser | src/main/java/com/rimmelasghar/boilerplate/springboot/controller/UserController.java:43-104 | binding errors: 400 with the field map, no write; a valid body is never answered 400 |
| UserController.CreateValidUser | src/main/java/com/rimmelasghar/boilerplate/springboot/controller/UserController.java:55-103 | 409 e-mail, then 409 phone (only if given), then 404 role, each with no write; otherwise 201 with exactly one inserted user with the password encoded |
| UserController.GetUserById | src/main/java/com/rimmelasghar/boilerplate/springboot/controller/UserController.java:120-131 | 200 with the user, or 404 "User not found" |
| UserController.Edited | src/main/java/com/rimmelasghar/boilerplate/springboot/controller/UserController.java:171-177 | only full_name and email change, and only when given; password, phone and role are kept |
| UserController.EmailConflictExact | src/main/java/com/rimmelasghar/boilerplate/springboot/controller/UserController.java:161-168 | the check rejects exactly an e-mail another user holds; one's own e-mail passes |
| UserController.UpdatedAsWritten | src/main/java/com/rimmelasghar/boilerplate/springboot/controller/UserController.java:171-182 | the stored user is the edited user with its stored password encoded again |
| UserController.UpdateUser | src/main/java/com/rimmelasghar/boilerplate/springboot/controller/UserController.java:137-183 | 400, then 404, then 409, each with no write; otherwise 200 with the row replaced as written (password re-encoded) |
| UserController.UpdateRehashesPassword | src/main/java/com/rimmelasghar/boilerplate/springboot/controller/UserController.java:180-182 | a concrete update after which the stored password no longer equals the old stored hash |
| UserController.UpdateUserKeepingHash | src/main/java/com/rimmelasghar/boilerplate/springboot/controller/UserController.java:137-183 | the same checks and answers; the stored password is left as it was |
| UserController.DeleteUser | src/main/java/com/rimmelasghar/boilerplate/springboot/controller/UserController.java:189-203 | 404 with nothing removed, or 204 with the user removed |
| UserValidation.ValidateUser | src/main/java/com/rimmelasghar/boilerplate/springboot/service/UserValidationService.java:25-45 | fails iff some user already has the request's e-mail, with the RegistrationException key |
| UserValidation.OnlyEmailChecked | src/main/java/com/rimmelasghar/boilerplate/springboot/service/UserValidationService.java:25-30 | two requests with the same e-mail get the same verdict |
| AuthUserService.FindByEmail | src/main/java/com/rimmelasghar/boilerplate/springboot/security/service/AuthUserServiceImpl.java:37-41 | found iff some user has the e-mail; with unique e-mails it is that user |
| AuthUserService.ConvertToUser | src/main/java/com/rimmelasghar/boilerplate/springboot/security/service/AuthUserServiceImpl.java:48 | the request's e-mail, name and password, no phone and no role |
| AuthUserService.Registration | src/main/java/com/rimmelasghar/boilerplate/springboot/security/service/AuthUserServiceImpl.java:43-69 | an e-mail in use fails before any write; otherwise the "USER" role is reused or created exactly once, and exactly one user with the encoded password and that role is inserted |
| AuthUserService.RegisteredUserFound | src/main/java/com/rimmelasghar/boilerplate/springboot/security/service/AuthUserServiceImpl.java:37-69 | after registration the e-mail finds the new user, whose role is named "USER" |
| UserDetailsService.LoadUserByUsername | src/main/java/com/rimmelasghar/boilerplate/springboot/security/service/UserDetailsServiceImpl.java:28-42 | unknown e-mail iff "Invalid email or password."; no role: a null dereference; a role name without non-whitespace text: refused by the authority; empty e-mail or null password: refused by the principal; otherwise the stored e-mail, the stored hash and exactly one authority, the role name |
| UserDetailsService.WideSpaceRoleRefused | src/main/java/com/rimmelasghar/boilerplate/springboot/security/service/UserDetailsServiceImpl.java:39 | a role name of two U+2003 spaces passes the role body checks, yet a user holding it cannot be loaded |
| UserDetailsService.RegisteredUserLoads | src/main/java/com/rimmelasghar/boilerplate/springboot/security/service/UserDetailsServiceImpl.java:27-42 | a registered user loads with the single authority "USER" |
| UserProfileMapper.ToUserProfileDto | src/main/java/com/rimmelasghar/boilerplate/springboot/mapper/UserProfileMapper.java:16-28 | null iff the user is null; id, name, e-mail and phone copied; role is the role's name or null |
| UserProfileMapper.ProfileHidesPassword | src/main/java/com/rimmelasghar/boilerplate/springboot/mapper/UserProfileMapper.java:21-27 | the projection does not depend on the password |
| PaymentMapper.ToPayment | src/main/java/com/rimmelasghar/boilerplate/springboot/mapper/PaymentMapper.java:25-30 | succeeds iff rental and user are stored; unknown rental, then unknown user, raise NotFound |
| PaymentMapper.ToPaymentDto | src/main/java/com/rimmelasghar/boilerplate/springboot/mapper/PaymentMapper.java:32-37 | a complete body carrying the row's id |
| PaymentMapper.PaymentDtoRoundTrip | src/main/java/com/rimmelasghar/boilerplate/springboot/mapper/PaymentMapper.java:25-37 | body to payment and back keeps every mapped field |
| PaymentMapper.PaymentRoundTrip | src/main/java/com/rimmelasghar/boilerplate/springboot/mapper/PaymentMapper.java:25-37 | payment to body and back gives the same payment |
| PaymentMapper.UpdatePaymentFromDto | src/main/java/com/rimmelasghar/boilerplate/springboot/mapper/PaymentMapper.java:39-59 | null fields and null ids keep the entity's values; given ones overwrite; an unknown id raises NotFound; created_at is never touched |
| PaymentMapper.EmptyPaymentUpdate | src/main/java/com/rimmelasghar/boilerplate/springboot/mapper/PaymentMapper.java:39-43 | an all-null update changes nothing |
| PaymentMapper.PaymentUpdateIdempotent | src/main/java/com/rimmelasghar/boilerplate/springboot/mapper/PaymentMapper.java:39-43 | applying an update twice equals applying it once |
| RentalMapper.ToRental | src/main/java/com/rimmelasghar/boilerplate/springboot/mapper/RentalMapper.java:25-32 | succeeds iff user and vehicle are stored; unknown user, then unknown vehicle, raise NotFound |
| RentalMapper.ToRentalDto | src/main/java/com/rimmelasghar/boilerplate/springboot/mapper/RentalMapper.java:34-41 | a complete body carrying the row's id |
| RentalMapper.RentalDtoRoundTrip | src/main/java/com/rimmelasghar/boilerplate/springboot/mapper/RentalMapper.java:25-41 | body to rental and back keeps every mapped field |
| RentalMapper.RentalRoundTrip | src/main/java/com/rimmelasghar/boilerplate/springboot/mapper/RentalMapper.java:25-41 | rental to body and back gives the same rental |
| RentalMapper.UpdateRentalFromDto | src/main/java/com/rimmelasghar/boilerplate/springboot/mapper/RentalMapper.java:43-65 | null fields and ids keep the entity's values; given ones overwrite; an unknown id raises NotFound; created_at is never touched |
| RentalMapper.EmptyRentalUpdate | src/main/java/com/rimmelasghar/boilerplate/springboot/mapper/RentalMapper.java:43-49 | an all-null update changes nothing |
| RentalMapper.RentalUpdateIdempotent | src/main/java/com/rimmelasghar/boilerplate/springboot/mapper/RentalMapper.java:43-49 | applying an update twice equals applying it once |
| VehicleMapper.ToVehicle | src/main/java/com/rimmelasghar/boilerplate/springboot/mapper/VehicleMapper.java:17-23 | succeeds iff the location is stored, else NotFound; the plate is copied |
| VehicleMapper.ToVehicleDto | src/main/java/com/rimmelasghar/boilerplate/springboot/mapper/VehicleMapper.java:25-31 | a complete body carrying the row's id |
| VehicleMapper.VehicleDtoRoundTrip | src/main/java/com/rimmelasghar/boilerplate/springboot/mapper/VehicleMapper.java:17-31 | body to vehicle and back keeps the plate, location, prices and every other mapped field |
| VehicleMapper.VehicleRoundTrip | src/main/java/com/rimmelasghar/boilerplate/springboot/mapper/VehicleMapper.java:17-31 | vehicle to body and back gives the same vehicle |
| VehicleMapper.UpdateVehicleFromDto | src/main/java/com/rimmelasghar/boilerplate/springboot/mapper/VehicleMapper.java:33-47 | null fields keep the entity's values; a given plate overwrites; a null location keeps the location; an unknown one raises NotFound |
| VehicleMapper.EmptyVehicleUpdate | src/main/java/com/rimmelasghar/boilerplate/springboot/mapper/VehicleMapper.java:33-39 | an all-null update changes nothing |
| VehicleMapper.VehicleUpdateIdempotent | src/main/java/com/rimmelasghar/boilerplate/springboot/mapper/VehicleMapper.java:33-39 | applying an update twice equals applying it once |
| ReviewMapper.ToReview | src/main/java/com/rimmelasghar/boilerplate/springboot/mapper/ReviewMapper.java:25-28 | succeeds iff rental and user are stored; unknown rental, then unknown user, raise NotFound; created_at defaults to now |
| ReviewMapper.ToReviewDto | src/main/java/com/rimmelasghar/boilerplate/springboot/mapper/ReviewMapper.java:30-33 | a complete body carrying the row's id |
| ReviewMapper.ReviewDtoRoundTrip | src/main/java/com/rimmelasghar/boilerplate/springboot/mapper/ReviewMapper.java:25-33 | body to review and back keeps every mapped field |
| ReviewMapper.ReviewRoundTrip | src/main/java/com/rimmelasghar/boilerplate/springboot/mapper/ReviewMapper.java:25-33 | review to body and back gives the same review |
| ReviewMapper.UpdateReviewFromDto | src/main/java/com/rimmelasghar/boilerplate/springboot/mapper/ReviewMapper.java:35 | a given rating or comment overwrites, a null one is kept; references and created_at untouched |
| ReviewMapper.ReviewUpdateIdempotent | src/main/java/com/rimmelasghar/boilerplate/springboot/mapper/ReviewMapper.java:35 | applying an update twice equals applying it once |
| LocationMapper.ToLocation | src/main/java/com/rimmelasghar/boilerplate/springboot/mapper/LocationMapper.java:12 | the location carries the body's (name, address) pair |
| LocationMapper.ToLocationDto | src/main/java/com/rimmelasghar/boilerplate/springboot/mapper/LocationMapper.java:14 | a body with the row's id, name and address |
| LocationMapper.LocationRoundTrip | src/main/java/com/rimmelasghar/boilerplate/springboot/mapper/LocationMapper.java:12-14 | location to body and back gives the same location |
| LocationMapper.UpdateLocationFromDto | src/main/java/com/rimmelasghar/boilerplate/springboot/mapper/LocationMapper.java:16 | a given id, name or address overwrites the entity's, a null one is kept |
| LocationMapper.EmptyLocationUpdate | src/main/java/com/rimmelasghar/boilerplate/springboot/mapper/LocationMapper.java:16 | an all-null body changes nothing |
| LocationMapper.LocationUpdateIdempotent | src/main/java/com/rimmelasghar/boilerplate/springboot/mapper/LocationMapper.java:16 | applying a body twice equals applying it once |
| LocationMapper.LocationUpdateFromOwnDto | src/main/java/com/rimmelasghar/boilerplate/springboot/mapper/LocationMapper.java:14-16 | the body of a stored location turns any entity into that location, id included |
| Dtos.Trim | src/main/java/com/rimmelasghar/boilerplate/springboot/dto/UserDto.java:10 | the trimmed string is empty iff the input is blank, and otherwise starts and ends above ' ' |
| Dtos.PhonePatternExact | src/main/java/com/rimmelasghar/boilerplate/springboot/dto/UserDto.java:21 | `^[0-9]{10,15}$` matches exactly the strings of 10 to 15 ASCII digits |
| Dtos.UserDtoViolations | src/main/java/com/rimmelasghar/boilerplate/springboot/dto/UserDto.java:10-24 | no violation iff the body meets every constraint (name not blank and 2–100 UTF-16 units long, e-mail not blank and well-formed, password at least 8 units long when given, phone of 10 to 15 digits when given) |
| Dtos.UserUpdateDtoViolations | src/main/java/com/rimmelasghar/boilerplate/springboot/dto/UserUpdateDto.java:9-18 | no violation iff every given field meets its constraint (a name of 2–100 UTF-16 units, a well-formed e-mail, a phone of 10 to 15 digits) |
| Dtos.EmptyUserUpdateAccepted | src/main/java/com/rimmelasghar/boilerplate/springboot/dto/UserUpdateDto.java:9-18 | an all-null update body is valid |
| Dtos.RoleDtoViolations | src/main/java/com/rimmelasghar/boilerplate/springboot/dto/RoleDto.java:11-14 | no violation iff the name is not blank and 2–50 UTF-16 units long; every violation is on role_name |
| Dtos.SurrogatePairMeetsMinimum | src/main/java/com/rimmelasghar/boilerplate/springboot/dto/RoleDto.java:11-14 | one character beyond U+FFFF counts as two units and meets the minimum of 2; one ASCII letter does not |
| Base.Utf16LengthBmp | src/main/java/com/rimmelasghar/boilerplate/springboot/dto/UserDto.java:11 | `@Size` lengths equal the character count exactly when every character is within U+0000–U+FFFF |
| Dtos.PaymentDtoViolations | src/main/java/com/rimmelasghar/boilerplate/springboot/dto/PaymentDto.java:22-36 | no violation iff ids, amount and date are given, the amount is > 0 and the method is not blank |
| Dtos.PaymentUpdateDtoViolations | src/main/java/com/rimmelasghar/boilerplate/springboot/dto/PaymentUpdateDto.java:21-22 | no violation iff a given amount is > 0 |
| Dtos.RentalDtoViolations | src/main/java/com/rimmelasghar/boilerplate/springboot/dto/RentalDto.java:21-38 | no violation iff every required field is given and the total price is > 0 |
| Dtos.RentalUpdateDtoViolations | src/main/java/com/rimmelasghar/boilerplate/springboot/dto/RentalUpdateDto.java:23-24 | no violation iff a given total price is > 0 |
| Dtos.VehicleDtoViolations | src/main/java/com/rimmelasghar/boilerplate/springboot/dto/VehicleDto.java:21-46 | no violation iff the five strings are not blank, the location is given and every given price is > 0 |
| Dtos.VehicleUpdateDtoViolations | src/main/java/com/rimmelasghar/boilerplate/springboot/dto/VehicleUpdateDto.java:24-31 | no violation iff every given price is > 0 |
| Dtos.LocationDtoViolations | src/main/java/com/rimmelasghar/boilerplate/springboot/dto/LocationDto.java:18-22 | no violation iff name and address are not blank |
| Http.HandleException | src/main/java/com/rimmelasghar/boilerplate/springboot/exceptions/GlobalExceptionHandler.java:13-31 | NotFound gives 404 and Conflict 409, each with an error body carrying the message; any other failure is a 500 |
| Http.FieldErrorMap | src/main/java/com/rimmelasghar/boilerplate/springboot/controller/RoleController.java:52-57 | the keys are exactly the fields with errors, and each value is a message reported for that field |
| Http.LastMessageWins | src/main/java/com/rimmelasghar/boilerplate/springboot/controller/RoleController.java:52-57 | a field's value is the message of its last error |
| Http.BindingErrors | src/main/java/com/rimmelasghar/boilerplate/springboot/controller/RoleController.java:52-57 | 400 with a map whose keys are exactly the fields with errors, each mapped to a message reported for that field |
| Http.Answer | src/main/java/com/rimmelasghar/boilerplate/springboot/exceptions/GlobalExceptionHandler.java:13-31 | the success status (200 or 201) exactly when the call succeeded, with its value; otherwise the handler's response, carrying the message of a NotFound or Conflict |
| Security.FirstMatch | src/main/java/com/rimmelasghar/boilerplate/springboot/configuration/SecurityConfiguration.java:44-53 | some access iff some rule matches the path, and then it is a rule's access |
| Security.PublicMatched | src/main/java/com/rimmelasghar/boilerplate/springboot/configuration/SecurityConfiguration.java:44-53 | every public path is matched by a rule |
| Security.MatchedPublic | src/main/java/com/rimmelasghar/boilerplate/springboot/configuration/SecurityConfiguration.java:44-53 | every path a rule matches is public |
| Security.DecideExact | src/main/java/com/rimmelasghar/boilerplate/springboot/configuration/SecurityConfiguration.java:44-53 | a request passes iff its path is public or it is authenticated |
| Security.UsersProtected | src/main/java/com/rimmelasghar/boilerplate/springboot/configuration/SecurityConfiguration.java:44-53 | every path under /users is refused without a principal |
| Security.ProfileProtected | src/main/java/com/rimmelasghar/boilerplate/springboot/configuration/SecurityConfiguration.java:44-53 | every path under /profile is refused without a principal |
| TestController.UserExistsBody | src/main/java/com/rimmelasghar/boilerplate/springboot/controller/TestController.java:21-41 | "exists" iff some user has the e-mail, "user" present exactly then, with id, e-mail, name, the password's UTF-16 length and role name or "No role assigned"; fails iff the user's password is null |
| TestController.CheckUserExists | src/main/java/com/rimmelasghar/boilerplate/springboot/controller/TestController.java:21-41 | 200 iff the body is built, otherwise Spring's 500 |

## Left out

- Login, JWT issuing and checking, and the bcrypt algorithm are not modelled. The encoder is any function from a raw password to a string.
- The clock is the parameter `now`. Concurrency and database transactions are not modelled, so two requests racing on a uniqueness check are out of scope.
- Only the columns the core reads or writes are modelled. A vehicle's image and a rental's pickup location are left out.
- Assumptions about types the services use but this model does not define from source:
  - Role's role_name is taken to be a unique column.
  - The review request bodies are taken to carry the fields ReviewMapper maps, with no validation constraint, so the review endpoints have no 400 answer.
  - UserMapper.convertToUser is taken to copy the e-mail, the full name and the password.
- Message bundles are not modelled: the registration error carries its message key, not the localised text.
- Spring's own 400 body for `@Valid` failures (`Http.Rejected`) and its 500 body are abstracted to the set of violations and to `DefaultError`.
- Body ids: the payment, rental, review, vehicle and location mappers copy an `id` given in a create body onto the entity, and `save` then merges it. A stored id has its row overwritten, and any other id is replaced by the next generated one (`Tables.Merge`). The model states this for every create.
- LocationService.UpdateLocation: the model takes the loaded location to stay attached to the request's persistence context, as under Spring Boot's default open-session-in-view. A body id other than the path's then makes Hibernate refuse the altered identifier, a 500 with nothing changed. With open-session-in-view switched off the save would instead merge into the body's id; that variant is not modelled.
- UserDetailsService.LoadUserByUsername: its whitespace test follows the Unicode tables of Java 11 and later. Older JDKs also count U+180E as whitespace.
- Foreign-key integrity is not enforced by the model. A user whose role id is not stored is treated as a user without a role.
- Security: the path matcher compares paths literally. URL decoding, path normalisation and trailing slashes are not modelled, and no role is ever consulted.
- `Long` id overflow is not modelled; ids are unbounded integers.
- `findAll` is taken to list rows in increasing id order. JPA promises no order, and the filter results are stated as sets for that reason.
- The e-mail format check of `@Email` is the parameter `isEmail`.
- The pass-through endpoints `getAllRoles` and `getAllUsers` of the controllers return the service listing unchanged and are not modelled separately. Nor is `getAllUsers` of the user service (UserServiceImpl.java:26-28), a plain `findAll` like `RoleService.GetAllRoles`.
- The vehicle and location controllers are not modelled. Their services are, with the body already validated.
- Phone numbers are not a unique column. `UserController.CreateValidUser` keeps them unique only if they already were, and the other user writes (update, registration) do not guard them.
- UserController.CreateUser: its own contract covers only the 400 path. The store checks and the 201 answer of a valid body are stated on `UserController.CreateValidUser`, which it calls.
- Http.FieldErrorMap: the contract says only that every value is one of the field's messages. Which message wins is stated by `Http.LastMessageWins`, for the last error of a field.

## Findings

| source | as written | input that shows it | evidently intended | confidence | as-written member | corrected member |
|---|---|---|---|---|---|---|
| src/main/java/com/rimmelasghar/boilerplate/springboot/controller/UserController.java:180-182 | `updateUser` saves the loaded user through `saveUser`, which encodes whatever non-empty password it is given. The password is already the stored hash, so it is hashed a second time. | With the encoder s ↦ "#" + s, a user stored with password "#secret" is updated with only a new name. The stored password becomes "##secret", and the original password no longer verifies. | The stored hash is kept when an update does not change the password. | not executed | UserController.UpdateRehashesPassword | UserController.UpdateUserKeepingHash |
