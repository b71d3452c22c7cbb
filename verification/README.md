# PharmaGo order, catalog and upload logic in Dafny

This project models the business logic of PharmaGo, an online pharmacy. The backend is an Express/Mongoose REST API over medicines, orders and per-user prescription uploads. The React client adds a catalog filter, an upload validator, a registration form and an order-status colour.

The database is modelled as maps: `Catalog = map<Id, Medicine>` and `OrderStore = map<Id, Order>`. A user's prescriptions are a `seq`. Each route is a pure function from the state before a request to a `Reply` (status code plus body or message) and the state after it.

- `common.dfy` (`Common`): `Option`, `Reply`, `FileInfo`, ids as strings.
- `text.dfy` (`Text`): ASCII `toLowerCase`, `includes`, `trim` and `path.extname`, plus a case-insensitive literal search that stands for Mongo's `$regex` with the `i` option.
- `medicine.dfy` (`MedicineModel`): the Medicine schema, with its defaults and validators.
- `order.dfy` (`OrderModel`): the Order schema, including line items, the status enum and the payment cast.
- `order_routes.dfy` (`OrderRoutes`): order placement as a recursive fold (`Reserve`), proved equal to closed-form reference definitions (`Bill`, `Drawn`, `LinePasses`). Also the single-order access rule, the user listing and the status update.
- `order_atomic.dfy` (`AtomicOrders`): two defects of order placement, each shown on a concrete request, and a corrected placement.
- `order_examples.dfy` (`OrderExamples`): worked requests against a one-medicine catalog.
- `medicine_routes.dfy` (`MedicineRoutes`): list-query construction and get/create/update/delete by id.
- `prescriptions.dfy` (`PrescriptionRoutes`): the upload filter and size limit, the stored name and URL, append-on-upload and delete-by-id.
- `medicine_list.dfy` (`MedicineList`): the client-side catalog filter, and how it compares with the server query.
- `upload_form.dfy` (`UploadForm`) and `upload_agreement.dfy` (`UploadAgreement`): the client's upload validator, and how it compares with the server's.
- `register_form.dfy` (`RegisterForm`): the dotted-name field update and the password guard.
- `profile_page.dfy` (`ProfilePage`): the status-to-colour mapping.

The model follows the code as written, including where it evidently falls short of what it intends:
- A rejected order is evidently meant to leave stock alone, but the create route saves each decrement as it goes and never rolls back. The model does the same, and `AtomicOrders` states the corrected version next to it (see "## Findings").
- Line items are stored exactly as the client sent them, including the client's own `price`, while the order total is computed from live catalog prices. Nothing ties the two together.
- The create route has no lower bound on quantity: a negative quantity passes the stock check and raises stock, a quantity of 0 passes and leaves stock as it was, and only the order save then fails, with a 500.

Money is in integer minor units.

## Model

| member | source | states |
|---|---|---|
| Text.ContainsIff | frontend/src/pages/MedicineList.js:52-53 | `includes` holds exactly when the needle occurs at some index of the string |
| Text.SearchIgnoringCaseIsLoweredContains | backend/routes/medicines.js:17-22 | a case-insensitive search for a literal pattern matches exactly when the lower-cased pattern is a substring of the lower-cased field |
| Text.Trim | backend/models/Medicine.js:4-8 | the stored name has no white space at either end and is the input with only white space removed from both ends |
| Text.TrimOfTrimmed | backend/models/Medicine.js:4-8 | trimming an already-trimmed name leaves it unchanged |
| Text.Ext | backend/routes/prescriptions.js:26 | the extension is the suffix starting at the last dot; it is empty exactly when the name has no dot, and contains no other dot |
| Text.ExtOfLower | backend/routes/prescriptions.js:26 | lower-casing a name and taking its extension commute |
| Text.DecimalString | backend/routes/prescriptions.js:15 | the time stamp is rendered as a non-empty string of decimal digits without a leading zero, and those digits read back (`DecimalValue`) as the number |
| MedicineModel.ParseCategory | backend/models/Medicine.js:18-22 | the category enum accepts exactly `OTC` and `Prescription`, case-sensitively |
| MedicineModel.CategoryRoundTrip | backend/models/Medicine.js:18-22 | every category name parses back to that category |
| MedicineModel.FromInput | backend/models/Medicine.js:3-50 | a document is built exactly when the name is non-empty after trimming, description, dosage and manufacturer are present and non-empty, price, expiry date and stock are present, price and stock are at least 0, and the category is in the enum; the result is valid, with the name trimmed, every other given field stored as sent, `image` defaulting to `/default-medicine.jpg` and `requiresPrescription` to false |
| MedicineModel.PrescriptionFlagIndependentOfCategory | backend/models/Medicine.js:44-47 | a `Prescription`-category medicine created without the flag does not require a prescription |
| MedicineModel.FromInputOfStored | backend/models/Medicine.js:3-47 | re-building a valid stored medicine from its own fields gives it back unchanged |
| MedicineRoutes.BuildQuery | backend/routes/medicines.js:10-22 | a category constraint exists exactly for a truthy category other than `'all'`, and a search constraint exactly for a truthy search |
| MedicineRoutes.Matches | backend/routes/medicines.js:13-24 | a medicine satisfies the list query exactly when its category equals the category constraint (if any) and the lower-cased search (if any) occurs in its lower-cased name or description |
| MedicineRoutes.ListMedicines | backend/routes/medicines.js:8-25 | the list holds exactly the medicines that match the built query, unchanged |
| MedicineRoutes.ListWithoutFiltersIsCatalog | backend/routes/medicines.js:10-24 | with no search and with no category (or `'all'`), every medicine is listed |
| MedicineRoutes.ListIsConjunction | backend/routes/medicines.js:13-24 | with both filters, a medicine is listed exactly when its category matches and the search is found in its name or its description |
| MedicineRoutes.GetMedicine | backend/routes/medicines.js:32-42 | a missing id gives 404 "Medicine not found"; otherwise the stored record |
| MedicineRoutes.CreateMedicine | backend/routes/medicines.js:45-53 | 201 exactly when the schema accepts the body, and then the stored and returned document is the one built from the body, valid, under the new id; otherwise 500 and no change |
| MedicineRoutes.ApplyPatch | backend/routes/medicines.js:58-62 | every field the body sets takes the body's value (the name trimmed, the category parsed from its name); every field it leaves out keeps the stored value, so an empty body changes nothing |
| MedicineRoutes.ApplyPatchPreservesValid | backend/routes/medicines.js:58-62 | an update that passes the update validators keeps a valid medicine valid |
| MedicineRoutes.UpdateMedicine | backend/routes/medicines.js:56-70 | an invalid body gives 500 (validators run first); a missing id gives 404; otherwise that entry, and only it, is replaced by the stored record with the body's fields applied, and the catalog stays valid |
| MedicineRoutes.DeleteMedicine | backend/routes/medicines.js:73-83 | a missing id gives 404 and no change; otherwise exactly that key is removed and every other record is unchanged |
| MedicineRoutes.GetAfterUpdate | backend/routes/medicines.js:56-66 | after a successful update, a get returns the updated record |
| MedicineRoutes.GetAfterDelete | backend/routes/medicines.js:73-79 | after a delete, the id gives 404 and every other lookup is unchanged |
| OrderModel.ParseStatus | backend/models/Order.js:29-33 | the status enum accepts exactly the four lower-case names |
| OrderModel.StatusRoundTrip | backend/models/Order.js:29-33 | every status name parses back to its status |
| OrderModel.StorePayment | backend/models/Order.js:43-47 | the stored payment keeps the card number, expiry date and name on card |
| OrderModel.CvvNotStored | backend/models/Order.js:43-47 | the card code has no effect on the stored payment |
| OrderModel.NewOrder | backend/models/Order.js:29-33 | a new order has status `pending` and holds the given user, items, total and delivery details |
| OrderRoutes.Take | backend/routes/orders.js:71-72 | one decrement lowers the stock of the item's medicine by the quantity and changes no other field and no other medicine |
| OrderRoutes.Reserve | backend/routes/orders.js:59-73 | the create loop never adds or removes a medicine, changes only `stock`, and keeps a valid catalog valid |
| OrderRoutes.BillReadsOnlyPrices | backend/routes/orders.js:68 | the total depends only on catalog prices, which the decrements do not touch |
| OrderRoutes.ReserveWhenAllPass | backend/routes/orders.js:59-73 | when every item passes, the loop ends with total = sum over the items, in list order, of catalog price × quantity, and each stock reduced by its total requested quantity |
| OrderRoutes.ReserveStopsAtFirstFailure | backend/routes/orders.js:60-67 | when item k fails first, the loop stops with that item's message (missing id or short medicine), with the decrements of items 0..k-1 applied and nothing after k examined |
| OrderRoutes.ReserveReachedIff | backend/routes/orders.js:60-73 | the loop reaches the end exactly when every item passes, each item being checked against stock already reduced by the earlier items |
| OrderRoutes.StockNeverNegative | backend/routes/orders.js:65-72 | for any quantities, a medicine whose stock was not negative never ends up with negative stock |
| OrderRoutes.StockBounds | backend/routes/orders.js:65-72 | on success, each stock equals the original stock minus the total requested, and is at least 0 (so taking exactly the whole stock leaves 0) |
| OrderRoutes.CreateOrder | backend/routes/orders.js:54-88 | a 201 order has the caller as user, the items exactly as sent, status pending and valid items, and is the one order added; any error leaves the orders unchanged; the catalog keeps its keys and stays valid |
| OrderRoutes.CreateOrderSucceeds | backend/routes/orders.js:57-84 | when every item passes and is well-formed: 201, total = catalog price sum, items as sent, stock reduced by the requested quantities |
| OrderRoutes.CreateOrderStopsAt | backend/routes/orders.js:60-67 | when item k fails first: 400 naming the missing id or the short medicine, no order, and items 0..k-1 already decremented |
| OrderRoutes.CreateOrderInvalidItem | backend/routes/orders.js:65-86 | an item with quantity below 1 or no price that passes the stock check still has its stock change saved, and then the request fails with a 500 |
| OrderRoutes.CreatedOrdersPassedEveryCheck | backend/routes/orders.js:59-84 | a created order passed every stock check, has only well-formed items, and its total is the catalog price sum |
| OrderRoutes.GetOrder | backend/routes/orders.js:32-51 | 404 for an unknown id; 500 when the owner no longer exists; 403 exactly when the owner exists and the caller is neither the owner nor an admin; 200 with the order exactly when the owner exists and the caller is the owner or an admin |
| OrderRoutes.UserOrders | backend/routes/orders.js:21-29 | the listing holds exactly the orders whose user is the caller |
| OrderRoutes.ListedOrdersAreReadable | backend/routes/orders.js:23-45 | every order in the caller's listing can be fetched by the caller, and never appears in another user's listing |
| OrderRoutes.UpdateStatus | backend/routes/orders.js:91-108 | an unknown status gives 500, an unknown id gives 404; otherwise the status is set to the given one, every other field is unchanged, and only that order is replaced |
| OrderRoutes.AnyStatusToAny | backend/routes/orders.js:93-98 | every status can be set regardless of the current one |
| OrderRoutes.UpdateStatusKeepsOrdersValid | backend/routes/orders.js:94-98 | a status update keeps every stored order valid |
| AtomicOrders.RejectedOrderKeepsEarlierDecrements | backend/routes/orders.js:60-72 | a request rejected on its second item still leaves the first item's stock taken |
| AtomicOrders.NegativeQuantityRaisesStock | backend/routes/orders.js:65-86 | a quantity of -3 passes, raises stock by 3, and then the request fails with a 500 |
| AtomicOrders.CreateOrderAtomic | backend/routes/orders.js:54-88 | corrected placement: any rejection leaves the database unchanged; success happens exactly when every item passes and is well-formed, and then agrees with the original; stock only decreases and stays at least 0 |
| AtomicOrders.AtomicRejectionLeavesNoTrace | backend/routes/orders.js:60-67 | in the corrected placement, a failing item leaves the database exactly as before |
| OrderExamples.TwoOfThreeUnits | backend/routes/orders.js:59-84 | price 50, stock 3, quantity 2: 201 with total 100, status pending, stock 1 |
| OrderExamples.AllThreeUnits | backend/routes/orders.js:65-71 | quantity equal to stock is accepted and leaves stock 0 |
| OrderExamples.FiveOfThreeUnits | backend/routes/orders.js:65-67 | quantity 5 with stock 3: 400 "Insufficient stock for Paracetamol", nothing changed |
| OrderExamples.UnknownMedicine | backend/routes/orders.js:61-64 | unknown id M9: 400 "Medicine M9 not found", nothing changed |
| OrderExamples.DeliverOrder | backend/routes/orders.js:94-102 | setting `delivered` returns the order with that status; an unknown id gives 404 |
| PrescriptionRoutes.ExtIsDottedSuffix | backend/routes/prescriptions.js:26 | a name's extension is `e` exactly when the name ends with `e`, for any dot-led, otherwise dot-free `e` |
| PrescriptionRoutes.AcceptsFileName | backend/routes/prescriptions.js:24-32 | the filter accepts exactly the names whose lower-cased form ends in `.pdf`, `.jpg`, `.jpeg` or `.png` |
| PrescriptionRoutes.FileFilterIgnoresCase | backend/routes/prescriptions.js:26-27 | a name and its lower-cased form are accepted alike |
| PrescriptionRoutes.OriginalNameRecoverable | backend/routes/prescriptions.js:14-16 | the stored name is the time stamp, a dash and the original name, and the original name is the text after the first dash |
| PrescriptionRoutes.Upload | backend/routes/prescriptions.js:36-55 | no file gives 400; a bad extension, or an accepted name on a file over 5 MiB, gives 500 "Something went wrong!" and no change; otherwise 201 and exactly one entry is appended, with the original name and the URL `/uploads/prescriptions/<stamp>-<name>` |
| PrescriptionRoutes.UploadKeepsIdsUnique | backend/routes/prescriptions.js:48 | appending under a fresh id keeps the entry ids unique |
| PrescriptionRoutes.RemoveId | backend/routes/prescriptions.js:75 | removal keeps exactly the entries with a different id |
| PrescriptionRoutes.RemoveIdIsOneEntry | backend/routes/prescriptions.js:70-75 | with unique ids, removing a present id takes out that single entry and keeps the others in order |
| PrescriptionRoutes.DeletePrescription | backend/routes/prescriptions.js:68-82 | an unknown id gives 404 and no change; otherwise 200 and only entries with that id are gone |
| PrescriptionRoutes.DeleteRemovesOnlyThatEntry | backend/routes/prescriptions.js:70-78 | deleting a listed entry leaves the list one shorter, with every other entry in its order |
| UploadForm.HandleFileChange | frontend/src/pages/UploadPrescription.js:22-37 | no pick changes nothing; the type is checked before the size; a rejected file only sets the error and keeps the previous file; an accepted file is set and the error cleared |
| UploadForm.HandleUpload | frontend/src/pages/UploadPrescription.js:39-47 | without a file it sets "Please select a file to upload" and sends nothing; with one it sends that file and clears the error |
| UploadForm.HandlersKeepFileChecked | frontend/src/pages/UploadPrescription.js:22-52 | the page never holds or sends a file that its own validator rejects |
| UploadForm.PickThenUpload | frontend/src/pages/UploadPrescription.js:22-52 | picking an acceptable file and uploading sends exactly that file; after a rejected pick, the earlier file is sent |
| UploadAgreement.SizeChecksAgree | frontend/src/pages/UploadPrescription.js:30-33 | client and server both accept exactly 5 × 1024 × 1024 bytes and reject anything larger |
| UploadAgreement.ClientAcceptsServerRefuses | backend/routes/prescriptions.js:24-32 | a PNG named `.gif` passes the client's MIME check but is refused by the server's extension check |
| UploadAgreement.ServerAcceptsClientRefuses | frontend/src/pages/UploadPrescription.js:25-29 | `scan.PDF` with a generic MIME type is refused by the client but accepted by the server |
| MedicineList.Keeps | frontend/src/pages/MedicineList.js:51-56 | the page keeps a medicine exactly when the lower-cased search occurs at some position of its lower-cased name or description, and the category is `'all'` or equals the medicine's |
| MedicineList.FilterMedicines | frontend/src/pages/MedicineList.js:51-56 | the result is an order-preserving subsequence of the input that holds every kept medicine as many times as the input does and no other medicine |
| MedicineList.FilterIdempotent | frontend/src/pages/MedicineList.js:51-56 | filtering again with the same inputs gives the same result |
| MedicineList.NoFilterKeepsAll | frontend/src/pages/MedicineList.js:51-56 | an empty search with category `'all'` keeps the whole list |
| MedicineList.EmptyTermMatchesAll | frontend/src/pages/MedicineList.js:52-54 | an empty search keeps everything on the search side, so only the category decides |
| MedicineList.ClientAgreesWithServer | frontend/src/pages/MedicineList.js:51-56 | for any non-empty category (including `'all'`), the page keeps a medicine exactly when the server's list query matches it |
| MedicineList.EmptyCategoryDisagrees | frontend/src/pages/MedicineList.js:54 | with an empty category the page keeps nothing, while the server applies no category constraint |
| RegisterForm.Segment | frontend/src/pages/Register.js:37 | a segment is the dot-free prefix up to the first dot or the end |
| RegisterForm.DottedPath | frontend/src/pages/Register.js:36-37 | parent and child are dot-free, `parent.child` is a prefix of the name, and what follows is nothing or another dot |
| RegisterForm.DottedPathOfJoin | frontend/src/pages/Register.js:37 | splitting `parent.child` followed by any `.tail` gives back (parent, child), so extra segments are ignored |
| RegisterForm.HandleChange | frontend/src/pages/Register.js:34-51 | a plain name replaces only that field; `parent.child` sets only that child and keeps the parent's other children; every other top-level field is unchanged |
| RegisterForm.EditNestedField | frontend/src/pages/Register.js:36-44 | editing `address.city` sets the city and keeps the street |
| RegisterForm.HandleSubmit | frontend/src/pages/Register.js:53-59 | the form is posted exactly when password and confirmation are strictly equal; otherwise the alert "Passwords do not match" and no request |
| RegisterForm.TypedPasswordsDecideSubmit | frontend/src/pages/Register.js:56-59 | after typing p and q into the two inputs, the form is posted exactly when p = q |
| ProfilePage.StatusColor | frontend/src/pages/Profile.js:57-68 | the colour is one of success, warning, error and default, and is not `default` exactly when the lower-cased status names processing, delivered or cancelled |
| ProfilePage.StatusColorIgnoresCase | frontend/src/pages/Profile.js:58 | the colour does not depend on the case of the status |
| ProfilePage.ColorOfStatus | frontend/src/pages/Profile.js:57-68 | delivered → success, processing → warning, cancelled → error, pending → default |

## Findings

| source | as written | input that shows it | evidently intended | confidence | as-written member | corrected member |
|---|---|---|---|---|---|---|
| backend/routes/orders.js:60-72 | each item's decrement is saved before later items are checked, and a later rejection returns 400 without undoing earlier decrements | stock A = 5, B = 0; items [A × 2, B × 1] gives 400 "Insufficient stock for Benadryl", no order, and A's stock is 3 | a rejected order leaves stock as it was | high (not executed) | AtomicOrders.RejectedOrderKeepsEarlierDecrements | AtomicOrders.CreateOrderAtomic |
| backend/routes/orders.js:65-86 | quantity has no lower bound before the decrement; `min: 1` only fires when the order is saved | stock A = 5; items [A × -3] gives 500 and A's stock is 8 | a quantity below 1 is rejected before any stock changes | high (not executed) | AtomicOrders.NegativeQuantityRaisesStock | AtomicOrders.CreateOrderAtomic |

`OrderRoutes.CreateOrder` still models the route as written. `AtomicOrders.CreateOrderAtomic` is the corrected definition. It is proved to agree with the as-written route on every successful request, and to leave the database untouched on every rejected one.

## Left out

- Persistence: MongoDB, Mongoose and Express routing are replaced by maps and a `Reply` value. Store failures (lost connection, write errors) are not modelled. `OrderRoutes.StockNeverNegative` shows that on a catalog whose stocks are not negative (every route keeps the catalog valid), the stock `min: 0` validator cannot fire in the create loop, so no validation failure of `medicine.save()` is possible there.
- Timestamps: both schemas set `timestamps: true` (backend/models/Medicine.js:49, backend/models/Order.js:49), so every document carries `createdAt` and `updatedAt`, and every update, a status change included, moves `updatedAt`. The clock is not modelled, so neither field is.
- Authentication: the `auth`/`adminAuth` middleware is not part of this model. The caller is given as an id and a role, and the admin-only guards on routes are not modelled.
- `GET /api/orders` (every order, for admins) and `GET /api/prescriptions` (the caller's list): each returns a whole store unchanged, so there is nothing to state beyond the store itself.
- `populate` projections of users and medicines in order replies. The one effect that matters is modelled: a deleted owner makes `GET /:id` fail with 500.
- Concurrency: two simultaneous orders can both pass the stock check and oversell. Only single requests are modelled.
- Floating point: prices, quantities and totals are JavaScript numbers. The model uses integers, so fractional quantities, `NaN` and rounding are not modelled.
- Request casting: malformed ObjectIds, a missing `items` array, a missing quantity, string-to-number casts and invalid `deliveryDate` values all end in 500 responses or `NaN`, and are not modelled. Request fields are typed.
- `Text.SearchIgnoringCase`: models `$regex` with the `i` option only for patterns without regular-expression metacharacters.
- `Text.Lower`: lower-cases ASCII letters only, whereas `toLowerCase` also maps non-ASCII letters.
- `Text.Trim`: removes ASCII white space only, whereas `trim` also removes Unicode spaces and line terminators.
- `Text.Ext`: takes the suffix from the last dot. For a dot-file name such as `.pdf`, `path.extname` returns the empty string and this model returns `.pdf`.
- `MedicineRoutes.PatchValid`: assumes the update validators enforce `required` on every string path the body sets, so an empty required string is refused.
- Clocks and files: `Date.now()`, `new Date()` and the fresh document ids are parameters. Multer's disk write and the file bytes are not modelled.
- Client: the asynchronous tail of `handleUpload` (success navigation, server error messages) and the network request of `handleSubmit` are not modelled. So are the rendering of every page, and the pages whose only logic is a network call or a dispatch to a reducer that is not part of this model (Home, App, Checkout, Cart, MedicineDetails, PrescriptionList).
