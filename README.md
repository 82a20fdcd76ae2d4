# Travel agency site: booking wizard, admin pages and public catalog in Dafny

This project models the logic of a travel agency web site built on React with a
hosted Postgres backend:

- **Booking wizard** (`BookingWizard`, `CardInput`): the public four-step booking
  form. Step 1 collects personal information, step 2 travel details, step 3
  payment, and step 4 shows success. The model covers:
  - the guards on Continue, Back and Submit;
  - the payment-method sub-state;
  - the payment-proof validator;
  - service selection and the names it yields;
  - the card-number, expiry and CVV input sanitisers;
  - the booking record written on submit.
- **Booking moderation** (`AdminBookings`): the administrator's list of bookings
  (newest first), the status badge and counters, the masked card number,
  approval and rejection of a pending payment, and deletion.
- **Services and gallery administration** (`AdminServices`, `AdminGallery`): the
  create and edit dialogs with their validation, the load and save mapping of
  optional fields, image selection and upload, `sort_order` on creation, the
  active toggle, reset and deletion.
- **Public catalog** (`Catalog`): the icon lookup with its Briefcase fallback,
  the Arabic title and description rule, and the catalog query ("active
  services, ascending `sort_order`") shared by the home page and the services
  page.

Shared modules:

- `Common`: optional values, remote outcomes and the JavaScript string idioms
  `s || null` and `o || ''`.
- `Ordering`: the backend's `ORDER BY`, modelled as a sort proved ordered and a
  permutation.
- `Rows`: a remote table with `.update().eq('id', …)` and `.delete().eq('id', …)`.

How the pages are modelled:

- Each page with state is a class. Its handlers are methods.
- The remote table is a `seq` field, `table`. The list on screen is another
  field, filled by the last successful fetch.
- Every call to the backend (select, insert, update, delete, storage upload)
  is a parameter of the method that makes it. The parameter gives the call's
  outcome: `Outcome` for success or error, `Remote<T>` for a value or an error.
- Controls that the page only renders in some state appear as preconditions
  (for example, approve and reject require a pending booking). Controls that
  are rendered but disabled are modelled as no-ops.

## Model

| member | source | states |
|---|---|---|
| Common.OrNull | src/pages/admin/AdminServices.tsx:172-176 | `s \|\| null`: the result is null exactly for the empty string, otherwise it is the string itself |
| Common.OrEmpty | src/pages/admin/AdminServices.tsx:240-245 | `o \|\| ''`: the result is empty exactly when the value is falsy (null or ''), otherwise it is the value |
| Common.OrNullOrEmpty | src/pages/admin/AdminGallery.tsx:206-218 | loading text saved as `s \|\| null` back into the form gives the same text |
| Common.OrEmptyOrNull | src/pages/admin/AdminGallery.tsx:141-147 | saving an unedited optional field writes back the stored value if and only if it is null or non-empty; a stored '' becomes null |
| Common.Join | src/pages/Booking.tsx:168 | `join(', ')` of no names is '' and of one name is that name |
| Common.JoinSnoc | src/pages/Booking.tsx:168 | joining one more name appends the separator and that name, for every non-empty list |
| Common.JoinLength | src/pages/Booking.tsx:168 | the joined text is as long as all names together plus one separator between each two neighbours |
| Common.SplitJoin | src/pages/Booking.tsx:168 | when no name contains ", ", splitting the text joined with ", " at ", " gives back the names, in order |
| Ordering.SortBy | src/pages/Services.tsx:52 | the ordered rows are a permutation of the selected rows |
| Ordering.SortBySorted | src/pages/Index.tsx:54 | the ordered rows are in ascending key order |
| Ordering.SortByMembers | src/pages/Services.tsx:48-52 | a row is listed if and only if it was selected |
| CardInput.Digits | src/pages/Booking.tsx:200 | the digit filter keeps only digits and never lengthens the input |
| CardInput.DigitsOfDigits | src/pages/Booking.tsx:200 | filtering digits twice is filtering once |
| CardInput.Chunks | src/pages/Booking.tsx:203-205 | the chunks of the digit run are empty exactly when the run is empty |
| CardInput.CardText | src/pages/Booking.tsx:199-208 | definition of what `formatCardNumber` returns; proved equal to the loop by `FormatCardNumber` and described by `CardTextGroups`, `GroupedLayout` and `CardTextIdempotent` |
| CardInput.FormatCardNumber | src/pages/Booking.tsx:199-208 | the loop that pushes 4-character slices returns the grouped text (or the raw input when no group was built), proved against `CardText` with a loop invariant |
| CardInput.GroupedLayout | src/pages/Booking.tsx:203-207 | groups of 4 joined by single spaces: length n + (n-1)/4, a space at each position k with k % 5 == 4 and digit m[k - k/5] everywhere else, so only the last group can be short |
| CardInput.DigitsOfGrouped | src/pages/Booking.tsx:203-207 | removing the spaces from the grouped text gives back the digit run |
| CardInput.CardTextGroups | src/pages/Booking.tsx:199-208 | with at least 4 digits, every non-digit is dropped, the first min(n,16) digits are grouped by four, and the result has at most 19 characters (the input's `maxLength`) |
| CardInput.CardTextKeepsShortInput | src/pages/Booking.tsx:207 | with fewer than 4 digits the raw input is returned unchanged, non-digits included |
| CardInput.CardTextIdempotent | src/pages/Booking.tsx:552 | reformatting an already formatted card number changes nothing |
| CardInput.LastFour | src/pages/Booking.tsx:176 | `slice(-4)`: the last min(n,4) characters of the text |
| CardInput.GroupedSuffix | src/pages/Booking.tsx:203-207 | the grouped text ends with the run's last group (1 to 4 characters), preceded by a space whenever there is more than one group |
| CardInput.LastFourOfFullCard | src/pages/Booking.tsx:176 | for a 16-digit card the stored `card_last_four` is digits 13 to 16 |
| CardInput.LastFourTakesSeparator | src/pages/Booking.tsx:176 | for 5 to 15 digits with n % 4 != 0, the stored `card_last_four` contains a space and is not the last four digits |
| CardInput.ExpiryTextShape | src/pages/Booking.tsx:210-216 | with at least 2 digits: two digits, '/', then at most two more digits, at most 5 characters; with fewer: just those digits, no slash |
| CardInput.ExpiryText | src/pages/Booking.tsx:210-216 | definition of what `formatExpiry` returns; described by `ExpiryTextShape` and `ExpiryTextIdempotent` |
| CardInput.ExpiryTextIdempotent | src/pages/Booking.tsx:564 | reformatting a formatted expiry changes nothing |
| CardInput.CvvText | src/pages/Booking.tsx:575 | the CVV keeps only digits, at most 4, and is a prefix of the input's digits |
| CardInput.CvvTextIdempotent | src/pages/Booking.tsx:575 | filtering a filtered CVV changes nothing |
| Catalog.GetIcon | src/pages/Services.tsx:63-65 | total lookup: a mapped name gives its component, any other name gives Briefcase |
| Catalog.IconMapKeys | src/pages/Index.tsx:16-25 | the map has the eight keys; 'Moon' and 'MoonIcon' give the same icon; Briefcase is shown exactly for 'Briefcase' and unmapped names |
| Catalog.GetIconAsWritten | src/pages/Index.tsx:65-67 | the lookup as written on an object literal returns an inherited member exactly for the `Object.prototype` names |
| Catalog.InheritedNameEscapesFallback | src/pages/Services.tsx:64 | the icon name "constructor" (or "toString") yields no Briefcase fallback |
| Catalog.GetIconAgreesOutsidePrototype | src/pages/Services.tsx:14-23 | the lookup as written agrees with the total lookup if and only if the name is not an `Object.prototype` member |
| Catalog.LocalizedTitle | src/pages/Services.tsx:67-69 | the title shown is the title or the Arabic title |
| Catalog.LocalizedDescription | src/pages/Index.tsx:73-75 | the description shown is the description or the Arabic description |
| Catalog.LocalizedChoice | src/pages/Index.tsx:69-71 | the Arabic title (description) is shown if and only if the language is 'ar' and the Arabic text is non-empty; otherwise the default text |
| Catalog.ActiveOnly | src/pages/Services.tsx:51 | a row passes the filter if and only if it is active |
| Catalog.LoadCatalog | src/pages/Index.tsx:48-63 | definition of the home and services page query result; described by `CatalogIsActiveInOrder` |
| Catalog.CatalogIsActiveInOrder | src/pages/Index.tsx:48-63 | the catalog is exactly the active rows, each as often as in the table, in ascending `sort_order`; empty after a failed fetch |
| BookingWizard.ProofSizeBoundary | src/pages/Booking.tsx:104-116 | a PNG of exactly 5 MiB is accepted, one byte more is not, and a PDF is rejected |
| BookingWizard.AcceptsProof | src/pages/Booking.tsx:104-116 | definition of the proof check: the MIME type is image/jpeg, image/png or image/jpg and the size is at most 5 MiB; its boundary is `ProofSizeBoundary` and its use `Wizard.SelectProof` |
| BookingWizard.Without | src/pages/Booking.tsx:80 | filtering an id out keeps exactly the other ids |
| BookingWizard.Toggled | src/pages/Booking.tsx:77-83 | toggling flips the membership of the given id and leaves every other id's membership unchanged |
| BookingWizard.ToggleKeepsNoDuplicates | src/pages/Booking.tsx:77-83 | toggling never introduces a duplicate id |
| BookingWizard.ToggleTwiceRestores | src/pages/Booking.tsx:77-83 | toggling an absent id twice restores the list exactly |
| BookingWizard.SelectedServices | src/pages/Booking.tsx:72-73 | a catalog service is selected if and only if its id is in the selection |
| BookingWizard.SelectedServiceNames | src/pages/Booking.tsx:71-75 | one localised title per selected service, in catalog order |
| BookingWizard.SelectedServicesByMembership | src/pages/Booking.tsx:71-75 | the names depend only on which catalog ids are selected: selection order and unknown ids do not matter |
| BookingWizard.SelectedServicesAll | src/pages/Booking.tsx:71-75 | selecting every catalog service yields the whole catalog, in order |
| BookingWizard.SelectionHasNames | src/pages/Booking.tsx:71-76 | a non-empty selection of catalog ids yields at least one service name |
| BookingWizard.BookingRecordFields | src/pages/Booking.tsx:162-177 | the record is pending confirmation and carries the proof URL; `card_last_four` is set if and only if the method is card; empty end date, notes and user id become null; one name is the service type itself |
| BookingWizard.BookingRecord | src/pages/Booking.tsx:162-177 | definition of the inserted object literal; its fields are stated by `BookingRecordFields`, `ServiceTypeOfSeveral`, `ServiceTypeRoundTrip` and `CardBookingStoresLastDigits` |
| BookingWizard.ServiceTypeOfSeveral | src/pages/Booking.tsx:168 | `service_type` is '' for no name; for two or more names it is the first names' `service_type`, then ", ", then the last name; its length is the names' total length plus 2 per separator |
| BookingWizard.ServiceTypeRoundTrip | src/pages/Booking.tsx:168 | when no selected name contains ", ", the stored `service_type` split at ", " gives back exactly the selected names, in catalog order |
| BookingWizard.ServiceTypeAmbiguous | src/pages/Booking.tsx:168 | a title that contains ", " is stored like two titles: "Hajj, Umrah" and "Hajj", "Umrah" give the same `service_type` |
| BookingWizard.PersonalComplete | src/pages/Booking.tsx:350 | definition of the step 1 Continue guard: name, email, phone and passport non-empty; used by `Wizard.ContinueToTravel` |
| BookingWizard.TravelComplete | src/pages/Booking.tsx:459 | definition of the step 2 Continue guard: a service selected, destination and start date non-empty; used by `Wizard.ContinueToPayment` |
| BookingWizard.CardComplete | src/pages/Booking.tsx:639 | definition of the card fields part of the card Submit guard: holder, number, expiry and CVV non-empty; used by `Wizard.SubmitEnabled` |
| BookingWizard.CardBookingStoresLastDigits | src/pages/Booking.tsx:176 | a card number typed with 16 digits is stored with its last four digits |
| BookingWizard.SubmittedBookingIsComplete | src/pages/Booking.tsx:162-177 | a booking reachable through the guards has every required field, at least one service name, a proof URL and status pending |
| BookingWizard.Wizard.constructor | src/pages/Booking.tsx:27-68 | the wizard starts on step 1 with an empty form and no selection, method or proof; the catalog is the fetched active services by `sort_order` |
| BookingWizard.Wizard.FieldShown | src/pages/Booking.tsx:295-545 | definition of which text inputs are rendered: the personal fields on step 1, the travel fields on step 2, the card holder only in the card form of step 3; the precondition of `Wizard.EditText` |
| BookingWizard.Wizard.SetLanguage | src/pages/Booking.tsx:71-75 | switching the language keeps the same selected services, now named in the new language, so a later submission stores the names in that language |
| BookingWizard.Wizard.EditText | src/pages/Booking.tsx:305-312 | a text input changes only its own field |
| BookingWizard.Wizard.TypeCardNumber | src/pages/Booking.tsx:552 | the card-number input stores the formatted text |
| BookingWizard.Wizard.TypeExpiry | src/pages/Booking.tsx:564 | the expiry input stores the formatted text, at most 5 characters |
| BookingWizard.Wizard.TypeCvv | src/pages/Booking.tsx:575 | the CVV input stores at most 4 digits |
| BookingWizard.Wizard.ToggleService | src/pages/Booking.tsx:392-396 | the checkbox flips exactly that service's membership and keeps the selection duplicate-free |
| BookingWizard.Wizard.ContinueToTravel | src/pages/Booking.tsx:347-350 | step 1 moves to 2 if and only if name, email, phone and passport are non-empty |
| BookingWizard.Wizard.ContinueToPayment | src/pages/Booking.tsx:456-459 | step 2 moves to 3 if and only if a service is selected and destination and start date are non-empty |
| BookingWizard.Wizard.Back | src/pages/Booking.tsx:634-636 | Back goes from 3 to 2 and from 2 to 1; the form, method and proof are kept |
| BookingWizard.Wizard.ChooseMethod | src/pages/Booking.tsx:486-503 | choosing card or number sets the method |
| BookingWizard.Wizard.ChangeMethod | src/pages/Booking.tsx:521-528 | "Change Method" sets the method back to none and keeps the form |
| BookingWizard.Wizard.SubmitEnabled | src/pages/Booking.tsx:639 | definition of the enabled Submit: card needs the four card fields and a proof, number (line 747) needs a proof, never while submitting; the guard of `Wizard.ClickSubmit` |
| BookingWizard.Wizard.SelectProof | src/pages/Booking.tsx:101-127 | an accepted file replaces the proof; no file, a wrong type or a file over 5 MiB keeps the previous proof |
| BookingWizard.Wizard.HandleSubmit | src/pages/Booking.tsx:129-197 | without a proof nothing is uploaded or inserted; step 4 and one inserted record if and only if upload and insert succeed; otherwise step 3 with the form kept; never left submitting |
| BookingWizard.Wizard.ClickSubmit | src/pages/Booking.tsx:637-639 | a disabled Submit (card: holder, number, expiry, CVV and proof required; number: proof required; not while submitting) does nothing |
| AdminBookings.StatusBadge | src/pages/admin/AdminBookings.tsx:131-142 | pending confirmation shows "Pending" in yellow, paid "Paid" in green, rejected "Rejected" in red; any other status is shown as its raw text, uncoloured |
| AdminBookings.BadgeDeterminesStatus | src/pages/admin/AdminBookings.tsx:131-142 | two statuses show the same badge if and only if they are equal |
| AdminBookings.PaymentMethodIcon | src/pages/admin/AdminBookings.tsx:144-146 | the card icon if and only if the method is 'card', else the phone icon |
| AdminBookings.CardMask | src/pages/admin/AdminBookings.tsx:251-255 | '****' followed by `card_last_four` is shown if and only if `card_last_four` is truthy |
| AdminBookings.ProofViewOffered | src/pages/admin/AdminBookings.tsx:271 | definition: the proof button is rendered exactly when `payment_proof_url` is truthy; required by `BookingsPage.Select` for the proof dialog and by `BookingsPage.ModerateSelected` in it |
| AdminBookings.ActionsOffered | src/pages/admin/AdminBookings.tsx:283 | definition: approve and reject are rendered exactly for a pending booking; required by `BookingsPage.Moderate` and `BookingsPage.ModerateSelected` |
| AdminBookings.CountStatus | src/pages/admin/AdminBookings.tsx:163 | a counter is at most the total and is zero exactly when no booking has that status |
| AdminBookings.CountersCoverTotal | src/pages/admin/AdminBookings.tsx:163-201 | Pending + Paid + Rejected is at most Total, and equals it if and only if every status is one of the three |
| AdminBookings.SetStatus | src/pages/admin/AdminBookings.tsx:84-89 | the update changes only `payment_status`, and only in the rows with that id |
| AdminBookings.SetStatusOnlyRow | src/pages/admin/AdminBookings.tsx:84-89 | writing a status by the id of a row of a table with unique ids changes that row's status, at its position, and no other row |
| AdminBookings.SetStatusMovesOne | src/pages/admin/AdminBookings.tsx:84-89 | updating one booking moves exactly one count from its old status's counter to the new status's counter |
| AdminBookings.RemoveId | src/pages/admin/AdminBookings.tsx:110-114 | the delete keeps exactly the rows with another id |
| AdminBookings.NewestFirst | src/pages/admin/AdminBookings.tsx:66-69 | the fetched list is a permutation of the table |
| AdminBookings.NewestFirstOrder | src/pages/admin/AdminBookings.tsx:64-82 | the fetched list holds every booking and is ordered by `created_at`, newest first |
| AdminBookings.DecisionStatus | src/pages/admin/AdminBookings.tsx:289-297 | approve writes exactly 'paid' and reject exactly 'rejected'; neither writes the pending status |
| AdminBookings.BookingsPage.constructor | src/pages/admin/AdminBookings.tsx:60-62 | the page fetches the bookings once on mount: the list is the table newest first (empty after a failed fetch), with nothing selected and no dialog open |
| AdminBookings.BookingsPage.FetchBookings | src/pages/admin/AdminBookings.tsx:64-82 | a successful fetch shows the table newest first; a failed fetch keeps the previous list |
| AdminBookings.BookingsPage.UpdatePaymentStatus | src/pages/admin/AdminBookings.tsx:84-106 | on success only that id's status changes and the list is refetched; on error the table is unchanged |
| AdminBookings.BookingsPage.Moderate | src/pages/admin/AdminBookings.tsx:283-302 | offered only for a pending row; when the list matches the table, that row moves from pending to paid or rejected and no other row changes |
| AdminBookings.BookingsPage.ModerateSelected | src/pages/admin/AdminBookings.tsx:398-422 | the details or proof dialog buttons, shown only for a pending booking (and, in the proof dialog, one with a proof URL), write paid or rejected to the selected id and close the dialog |
| AdminBookings.BookingsPage.Select | src/pages/admin/AdminBookings.tsx:263-278 | the eye, proof and delete buttons select that booking and open their dialog; the proof dialog opens only for a booking with a proof URL |
| AdminBookings.BookingsPage.CloseDialog | src/pages/admin/AdminBookings.tsx:326 | `onOpenChange(false)` closes the open dialog and keeps the selection |
| AdminBookings.BookingsPage.HandleDelete | src/pages/admin/AdminBookings.tsx:108-129 | the Delete action of the confirmation dialog (lines 487-503) always closes the dialog; no selection or an error keeps the table, the list and the selection; success removes exactly the selected id (one row) and clears the selection |
| AdminBookings.BookingsPage.DeleteSelected | src/pages/admin/AdminBookings.tsx:111-120 | after a successful delete of the selected booking: exactly its rows are gone (one row when it is in the table), the selection is cleared and the list is refetched |
| Rows.Update | src/pages/admin/AdminServices.tsx:167-181 | `.update().eq('id', id)` changes the rows with that id and keeps every other row and the order |
| Rows.UpdateKeepsUnique | src/pages/admin/AdminGallery.tsx:137-151 | an update that does not touch ids keeps them unique |
| Rows.UpdateOnlyRow | src/pages/admin/AdminServices.tsx:278-284 | with unique ids, updating by a row's id changes that row alone |
| Rows.Remove | src/pages/admin/AdminServices.tsx:219-222 | `.delete().eq('id', id)` keeps exactly the rows with another id |
| Rows.RemoveAppend | src/pages/admin/AdminServices.tsx:219-222 | deleting from two concatenated tables deletes from each, so the remaining rows keep their order |
| Rows.RemoveOne | src/pages/admin/AdminServices.tsx:219-222 | a single row stays exactly when its id is not the deleted one |
| Rows.RemoveKeepsUnique | src/pages/admin/AdminGallery.tsx:187-190 | deleting keeps ids unique |
| Rows.RemoveRemovesOne | src/pages/admin/AdminGallery.tsx:183-204 | with unique ids, deleting a row's id removes exactly one row |
| AdminServices.EditForm | src/pages/admin/AdminServices.tsx:238-252 | loading a row fills the form with its fields, null text as '' |
| AdminServices.Required | src/pages/admin/AdminServices.tsx:146 | definition of the save guard: title and description non-empty; used by `ServicesPage.Submit` |
| AdminServices.Edited | src/pages/admin/AdminServices.tsx:167-179 | definition of the update payload applied to a row; described by `EditedFields` and `EditRoundTrip` |
| AdminServices.SavedImageUrl | src/pages/admin/AdminServices.tsx:157-165 | a chosen file's uploaded URL replaces `image_url`; with no file the form's `image_url` is kept |
| AdminServices.EditedFields | src/pages/admin/AdminServices.tsx:167-179 | an edit writes the seven form fields (empty optional text as null) and never the id or `sort_order`; reopening the saved row gives back the form |
| AdminServices.Created | src/pages/admin/AdminServices.tsx:184-195 | a created row carries the new id and `sort_order` = list length, with the same field mapping as an edit |
| AdminServices.EditRoundTrip | src/pages/admin/AdminServices.tsx:167-179 | opening a row and saving it unchanged writes it back identically if and only if `title_ar`, `description_ar` and `image_url` are null or non-empty |
| AdminServices.SavedKeepsUnique | src/pages/admin/AdminServices.tsx:167-198 | a save keeps the table's ids unique |
| AdminServices.Saved | src/pages/admin/AdminServices.tsx:167-198 | an edit keeps the table's length (the row is updated in place); a create appends exactly the created row |
| AdminServices.Toggled | src/pages/admin/AdminServices.tsx:278-284 | the toggle keeps the table's length; described by `ToggleOnlyRow` |
| AdminServices.ToggleOnlyRow | src/pages/admin/AdminServices.tsx:278-284 | the toggle keeps ids unique and, for a row of the table, flips that row's `is_active` and changes nothing else |
| AdminServices.Listed | src/pages/admin/AdminServices.tsx:78-81 | the admin list is a permutation of the table |
| AdminServices.ListedOrder | src/pages/admin/AdminServices.tsx:76-94 | the admin list holds every service, active or not, by ascending `sort_order` |
| AdminServices.CreatedSortsLast | src/pages/admin/AdminServices.tsx:194 | while the rows carry sort orders 0..n-1, a new service sorts after all of them |
| AdminServices.CreateAfterDeleteRepeatsSortOrder | src/pages/admin/AdminServices.tsx:194-222 | after deleting sort order 0 of [0, 1], a new service gets sort order 1 again |
| AdminServices.ServicesPage.constructor | src/pages/admin/AdminServices.tsx:62-74 | the form starts at its defaults and the list is fetched once |
| AdminServices.ServicesPage.FetchServices | src/pages/admin/AdminServices.tsx:76-94 | a successful fetch shows the table by `sort_order`; a failed one keeps the list |
| AdminServices.ServicesPage.SetForm | src/pages/admin/AdminServices.tsx:466-516 | a dialog input sets the form |
| AdminServices.ServicesPage.ResetForm | src/pages/admin/AdminServices.tsx:260-276 | defaults: empty text, icon 'Briefcase', active; no selection, file or preview |
| AdminServices.ServicesPage.OpenCreate | src/pages/admin/AdminServices.tsx:254-258 | the create dialog starts from the defaults with no selection |
| AdminServices.ServicesPage.OpenEdit | src/pages/admin/AdminServices.tsx:238-252 | the edit dialog selects the row, loads it into the form, clears the file and previews the stored image |
| AdminServices.ServicesPage.SelectForDelete | src/pages/admin/AdminServices.tsx:381-384 | the delete button selects the row |
| AdminServices.ServicesPage.HandleImageSelect | src/pages/admin/AdminServices.tsx:116-134 | an image file becomes the chosen file and preview; no file or a non-image leaves both unchanged |
| AdminServices.ServicesPage.RemoveImage | src/pages/admin/AdminServices.tsx:136-143 | clears the file, the preview and `image_url`, and nothing else in the form |
| AdminServices.ServicesPage.SaveSucceeds | src/pages/admin/AdminServices.tsx:145-213 | definition of a save that reaches the write and succeeds: required fields, a successful upload when a file is chosen, and a successful write; splits the contract of `ServicesPage.Submit` |
| AdminServices.ServicesPage.Submit | src/pages/admin/AdminServices.tsx:145-213 | no title or description: no upload and no write; a failed upload or write changes nothing; success updates (without touching `sort_order`) or inserts with `sort_order` = list length, then resets and refetches |
| AdminServices.ServicesPage.ToggleActive | src/pages/admin/AdminServices.tsx:278-298 | writes `is_active = !shown value` alone; when in sync, that row flips and no other row changes |
| AdminServices.ServicesPage.HandleDelete | src/pages/admin/AdminServices.tsx:215-236 | no selection or an error changes nothing; success removes the selected id and clears the selection |
| AdminGallery.EditForm | src/pages/admin/AdminGallery.tsx:206-218 | loading an item fills the form, null text as '' and the image URL as is |
| AdminGallery.Required | src/pages/admin/AdminGallery.tsx:127 | definition of the save guard: title and image URL non-empty; used by `GalleryPage.Submit` |
| AdminGallery.Edited | src/pages/admin/AdminGallery.tsx:137-151 | definition of the update payload applied to an item; described by `EditedFields` and `EditRoundTrip` |
| AdminGallery.EditedFields | src/pages/admin/AdminGallery.tsx:137-151 | an edit writes the seven form fields (empty optional text as null, `image_url` as is) and never the id or `sort_order`; reopening gives back the form |
| AdminGallery.Created | src/pages/admin/AdminGallery.tsx:153-165 | a created item carries the new id and `sort_order` = list length |
| AdminGallery.EditRoundTrip | src/pages/admin/AdminGallery.tsx:137-151 | saving an unchanged edit writes the item back identically if and only if `title_ar`, `description`, `description_ar` and `category` are null or non-empty |
| AdminGallery.SavedKeepsUnique | src/pages/admin/AdminGallery.tsx:137-168 | a save keeps the table's ids unique |
| AdminGallery.Saved | src/pages/admin/AdminGallery.tsx:137-168 | an edit keeps the table's length; a create appends exactly the created item |
| AdminGallery.Toggled | src/pages/admin/AdminGallery.tsx:241-244 | the toggle keeps the table's length; described by `ToggleOnlyRow` |
| AdminGallery.ToggleOnlyRow | src/pages/admin/AdminGallery.tsx:241-244 | the toggle keeps ids unique and, for an item of the table, flips that item's `is_active` and changes nothing else |
| AdminGallery.Listed | src/pages/admin/AdminGallery.tsx:67-70 | the admin list is a permutation of the table |
| AdminGallery.ListedOrder | src/pages/admin/AdminGallery.tsx:65-83 | the admin list holds every item by ascending `sort_order` |
| AdminGallery.GalleryPage.constructor | src/pages/admin/AdminGallery.tsx:51-63 | the form starts at its defaults and the list is fetched once |
| AdminGallery.GalleryPage.FetchGallery | src/pages/admin/AdminGallery.tsx:65-83 | a successful fetch shows the table by `sort_order`; a failed one keeps the list |
| AdminGallery.GalleryPage.SetForm | src/pages/admin/AdminGallery.tsx:378-442 | a dialog input sets the form |
| AdminGallery.GalleryPage.ResetForm | src/pages/admin/AdminGallery.tsx:226-237 | empty text, active, no selection |
| AdminGallery.GalleryPage.OpenCreate | src/pages/admin/AdminGallery.tsx:220-224 | the create dialog starts from the defaults |
| AdminGallery.GalleryPage.OpenEdit | src/pages/admin/AdminGallery.tsx:206-218 | the edit dialog selects the item and loads it into the form |
| AdminGallery.GalleryPage.SelectForDelete | src/pages/admin/AdminGallery.tsx:316-319 | the delete button selects the item |
| AdminGallery.GalleryPage.HandleImageUpload | src/pages/admin/AdminGallery.tsx:85-124 | no file, a non-image or a failed upload changes nothing; success changes only the form's `image_url` |
| AdminGallery.GalleryPage.Submit | src/pages/admin/AdminGallery.tsx:126-181 | no title or image: no write; a failed write keeps the form; success updates (without touching `sort_order`) or inserts with `sort_order` = list length, then resets and refetches |
| AdminGallery.GalleryPage.ToggleActive | src/pages/admin/AdminGallery.tsx:239-255 | writes `is_active = !shown value` alone; when in sync, that item flips and no other changes |
| AdminGallery.GalleryPage.HandleDelete | src/pages/admin/AdminGallery.tsx:183-204 | no selection or an error changes nothing; success removes the selected id and clears the selection |

## Left out

- Backend I/O: queries, inserts, updates, deletes and storage uploads are not
  performed. Each is a parameter giving its outcome, and the remote table is a
  field of the page.
- Public URL minting by the storage service is modelled as the upload's value.
- File names built from `Date.now()` and `Math.random()` are not modelled.
- The `uploading`/`loading` flags, toasts, the services and gallery dialog open flags and `console` logging
  are left out. The model treats each handler as one atomic step, so in-flight
  requests, unmounting and two administrators racing on one row are not
  modelled.
- Browser APIs are left out: `URL.createObjectURL`, `FileReader` (the preview is
  the chosen file itself), `navigator.clipboard` (copying the payment number),
  `toLocaleDateString`, `window.location` and the file input's `value` reset.
- `created_at` is modelled as an integer timestamp.
- The services table's `price` and the `updated_at` columns are left out; the
  pages never write them.
- The input `maxLength` attributes are left out. The formatters already keep
  the card number to at most 19 characters and the expiry to at most 5.
- Regular expressions are specified by digit filtering and slicing. The first
  run of 4 to 16 digits after removing non-digits is the first min(n, 16) digits.
- The database's order among rows with equal keys is not specified. The model
  sorts stably, and the lemmas state only the ordering by key and the
  permutation.
- The signed-in user comes from an authentication context,
  which is not part of this model; its id is a constructor parameter.
- `handleImageUpload` in the gallery page writes its URL into the form captured
  when the file was chosen. With handlers atomic, edits made during the
  upload are not modelled.
- AdminBookings.BookingsPage.Moderate: proves the pending-to-decided
  transition only when the list on screen matched the table. The page checks
  "pending" on the row it shows, while the update hits the table by id. If the
  last refetch failed, the list can be stale, so a booking can be written from
  paid to rejected.
- AdminBookings.BookingsPage.ModerateSelected: states only which status is
  written to which id. The dialog shows the booking captured when it was
  selected, which may no longer match the table, so no transition guarantee
  is given.
- The bookings page's three dialog flags are one `Dialog` value, since the
  dialogs are modal and at most one is open at a time.
- Card digits that are kept: the column name `card_last_four` suggests
  digits, but the code stores `slice(-4)` of the formatted card text
  (src/pages/Booking.tsx:176), and the model follows the code.
  `CardInput.LastFourTakesSeparator` shows that for 5 to 15 digits with
  n % 4 != 0 the stored value includes the separating space.
- Sort order after deletion: deletion never renumbers the remaining rows,
  and creation uses the list length (src/pages/admin/AdminServices.tsx:194,
  src/pages/admin/AdminGallery.tsx:164), so a deletion followed by a creation
  can repeat an existing sort order
  (`AdminServices.CreateAfterDeleteRepeatsSortOrder`). The gallery page has
  the same code and the same outcome.

## Findings

| source | as written | input that shows it | evidently intended | confidence | as-written member | corrected member |
|---|---|---|---|---|---|---|
| src/pages/Services.tsx:63-65 (also src/pages/Index.tsx:65-67) | `iconMap[iconName] \|\| Briefcase` looks the name up on a plain object literal, so the names inherited from `Object.prototype` are found and are truthy | a service whose icon is "constructor" or "toString" (the admin icon field is free text) renders `Object`/a function instead of an icon | a total lookup over the eight own keys with Briefcase for every other name | not executed | Catalog.GetIconAsWritten (Catalog.InheritedNameEscapesFallback) | Catalog.GetIcon (Catalog.GetIconAgreesOutsidePrototype, Catalog.IconMapKeys) |
