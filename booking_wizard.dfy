/**
 * The public booking wizard (src/pages/Booking.tsx): step 1 personal
 * information, step 2 travel details, step 3 payment, step 4 success. The
 * page state is a `Wizard` object whose methods are the page's handlers and
 * controls; the pure parts (service toggle, selected names, proof validation,
 * the record written on submit) are functions beside it.
 *
 * The storage upload and the table insert are parameters of `HandleSubmit`
 * (their outcomes); the rows this page inserts and the files it uploads are
 * kept in `inserted` and `uploaded`.
 */
module BookingWizard {
  import opened Common
  import opened CardInput
  import Catalog

  datatype PaymentMethod = Card | Number

  /** `formData` */
  datatype FormData = FormData(
    name: string, email: string, phone: string, passport: string,
    destination: string, startDate: string, endDate: string, notes: string,
    cardHolder: string, cardNumber: string, expiry: string, cvv: string)

  const EmptyForm := FormData("", "", "", "", "", "", "", "", "", "", "", "")

  /** The plain text inputs (the card number, expiry and CVV inputs sanitise what is typed). */
  datatype TextField = Name | Email | Phone | Passport | Destination | StartDate | EndDate | Notes | CardHolder

  function WithText(f: FormData, field: TextField, value: string): FormData
  {
    match field
    case Name => f.(name := value)
    case Email => f.(email := value)
    case Phone => f.(phone := value)
    case Passport => f.(passport := value)
    case Destination => f.(destination := value)
    case StartDate => f.(startDate := value)
    case EndDate => f.(endDate := value)
    case Notes => f.(notes := value)
    case CardHolder => f.(cardHolder := value)
  }

  /** A file chosen in the payment-proof input. */
  datatype ProofFile = ProofFile(name: string, mimeType: string, size: int)

  const AllowedProofTypes: set<string> := {"image/jpeg", "image/png", "image/jpg"}
  const MaxProofBytes: int := 5 * 1024 * 1024

  /** The two checks of `handleFileSelect`: an accepted MIME type and at most 5 MiB. */
  predicate AcceptsProof(f: ProofFile)
  {
    f.mimeType in AllowedProofTypes && f.size <= MaxProofBytes
  }

  /** The size limit is inclusive: exactly 5 MiB passes, one byte more does not. */
  lemma ProofSizeBoundary(name: string)
    ensures AcceptsProof(ProofFile(name, "image/png", 5242880))
    ensures !AcceptsProof(ProofFile(name, "image/png", 5242881))
    ensures !AcceptsProof(ProofFile(name, "application/pdf", 1))
  {
  }

  // ---------------------------------------------------------------------------
  // Service selection

  predicate NoDuplicates(ids: seq<string>)
  {
    forall i, j :: 0 <= i < j < |ids| ==> ids[i] != ids[j]
  }

  /** `prev.filter(id => id !== serviceId)` */
  function Without(ids: seq<string>, id: string): (r: seq<string>)
    ensures forall x :: x in r <==> x in ids && x != id
  {
    if ids == [] then []
    else (if ids[0] == id then [] else [ids[0]]) + Without(ids[1..], id)
  }

  /** `handleServiceToggle`: remove the id when present, else append it. */
  function Toggled(ids: seq<string>, id: string): (r: seq<string>)
    ensures id in r <==> id !in ids
    ensures forall x :: x != id ==> (x in r <==> x in ids)
  {
    if id in ids then Without(ids, id) else ids + [id]
  }

  lemma {:induction false} WithoutKeepsNoDuplicates(ids: seq<string>, id: string)
    requires NoDuplicates(ids)
    ensures NoDuplicates(Without(ids, id))
  {
    if ids != [] {
      WithoutKeepsNoDuplicates(ids[1..], id);
      var rest := Without(ids[1..], id);
      if ids[0] != id {
        assert ids[0] !in ids[1..];
        assert ids[0] !in rest;
        var r := [ids[0]] + rest;
        forall i, j | 0 <= i < j < |r| ensures r[i] != r[j] {
          if i == 0 {
            assert r[j] == rest[j - 1];
            assert r[j] in rest;
          } else {
            assert r[i] == rest[i - 1] && r[j] == rest[j - 1];
          }
        }
      }
    }
  }

  /** Toggling never introduces a duplicate id. */
  lemma ToggleKeepsNoDuplicates(ids: seq<string>, id: string)
    requires NoDuplicates(ids)
    ensures NoDuplicates(Toggled(ids, id))
  {
    if id in ids {
      WithoutKeepsNoDuplicates(ids, id);
    }
  }

  lemma {:induction false} WithoutAbsent(ids: seq<string>, id: string)
    requires id !in ids
    ensures Without(ids, id) == ids
  {
    if ids != [] {
      WithoutAbsent(ids[1..], id);
      assert ids == [ids[0]] + ids[1..];
    }
  }

  /** Selecting a service and deselecting it again restores the list exactly. */
  lemma ToggleTwiceRestores(ids: seq<string>, id: string)
    requires id !in ids
    ensures Toggled(Toggled(ids, id), id) == ids
  {
    WithoutAbsent(ids, id);
    assert Without(ids + [id], id) == Without(ids, id) + Without([id], id) by {
      WithoutAppend(ids, [id], id);
    }
    assert Without([id], id) == [];
    assert ids + [] == ids;
  }

  lemma {:induction false} WithoutAppend(a: seq<string>, b: seq<string>, id: string)
    ensures Without(a + b, id) == Without(a, id) + Without(b, id)
  {
    if a == [] {
      assert a + b == b;
    } else {
      assert (a + b)[1..] == a[1..] + b;
      WithoutAppend(a[1..], b, id);
    }
  }

  /** The services of the catalog whose id is selected, in catalog order. */
  function SelectedServices(catalog: seq<Catalog.Service>, ids: seq<string>): (r: seq<Catalog.Service>)
    ensures forall s :: s in r <==> s in catalog && s.id in ids
    ensures |r| <= |catalog|
  {
    if catalog == [] then []
    else (if catalog[0].id in ids then [catalog[0]] else []) + SelectedServices(catalog[1..], ids)
  }

  /** `selectedServiceNames`: one localised title per selected catalog service. */
  function SelectedServiceNames(catalog: seq<Catalog.Service>, ids: seq<string>, language: string): (r: seq<string>)
    ensures |r| == |SelectedServices(catalog, ids)|
    ensures forall k :: 0 <= k < |r| ==> r[k] == Catalog.LocalizedTitle(SelectedServices(catalog, ids)[k], language)
  {
    var sel := SelectedServices(catalog, ids);
    seq(|sel|, k requires 0 <= k < |sel| => Catalog.LocalizedTitle(sel[k], language))
  }

  /**
   * The selection only matters through which catalog services it names: the
   * order in which services were ticked, and ids that are not in the catalog,
   * do not change the result.
   */
  lemma {:induction false} SelectedServicesByMembership(catalog: seq<Catalog.Service>, ids: seq<string>, ids': seq<string>)
    requires forall s :: s in catalog ==> (s.id in ids <==> s.id in ids')
    ensures SelectedServices(catalog, ids) == SelectedServices(catalog, ids')
  {
    if catalog != [] {
      assert catalog[0] in catalog;
      SelectedServicesByMembership(catalog[1..], ids, ids');
    }
  }

  /** With every catalog service selected, the names follow the catalog exactly. */
  lemma {:induction false} SelectedServicesAll(catalog: seq<Catalog.Service>, ids: seq<string>)
    requires forall s :: s in catalog ==> s.id in ids
    ensures SelectedServices(catalog, ids) == catalog
  {
    if catalog != [] {
      assert catalog[0] in catalog;
      SelectedServicesAll(catalog[1..], ids);
      assert catalog == [catalog[0]] + catalog[1..];
    }
  }

  function CatalogIds(catalog: seq<Catalog.Service>): set<string>
  {
    set s | s in catalog :: s.id
  }

  /** A non-empty selection of catalog ids yields at least one name. */
  lemma SelectionHasNames(catalog: seq<Catalog.Service>, ids: seq<string>, language: string)
    requires |ids| > 0
    requires forall id :: id in ids ==> id in CatalogIds(catalog)
    ensures |SelectedServiceNames(catalog, ids, language)| > 0
  {
    assert ids[0] in CatalogIds(catalog);
    var s :| s in catalog && s.id == ids[0];
    assert s in SelectedServices(catalog, ids);
  }

  // ---------------------------------------------------------------------------
  // Guards

  /** Step 1 Continue is enabled. */
  predicate PersonalComplete(f: FormData)
  {
    f.name != "" && f.email != "" && f.phone != "" && f.passport != ""
  }

  /** Step 2 Continue is enabled. */
  predicate TravelComplete(f: FormData, ids: seq<string>)
  {
    |ids| > 0 && f.destination != "" && f.startDate != ""
  }

  predicate CardComplete(f: FormData)
  {
    f.cardHolder != "" && f.cardNumber != "" && f.expiry != "" && f.cvv != ""
  }

  // ---------------------------------------------------------------------------
  // The booking record

  /** The row `handleSubmit` inserts into `bookings`. */
  datatype NewBooking = NewBooking(
    user_id: Option<string>,
    name: string, email: string, phone: string, passport: string,
    service_type: string, destination: string, start_date: string,
    end_date: Option<string>, notes: Option<string>,
    payment_method: Option<PaymentMethod>,
    payment_status: string,
    payment_proof_url: Option<string>,
    card_last_four: Option<string>)

  const PendingConfirmation := "pending_confirmation"

  /** The object literal passed to `.insert(...)`. */
  function BookingRecord(f: FormData, names: seq<string>, pm: Option<PaymentMethod>,
                         proofUrl: string, userId: Option<string>): NewBooking
  {
    NewBooking(
      OrNull(OrEmpty(userId)),
      f.name, f.email, f.phone, f.passport,
      Join(names, ", "), f.destination, f.startDate,
      OrNull(f.endDate), OrNull(f.notes),
      pm,
      PendingConfirmation,
      Some(proofUrl),
      if pm == Some(Card) then Some(LastFour(f.cardNumber)) else None)
  }

  /**
   * Whatever the method, a new booking awaits confirmation and carries its
   * proof URL; only a card booking stores the last four characters of the
   * card number as displayed, and empty optional fields are stored as null.
   */
  lemma BookingRecordFields(f: FormData, names: seq<string>, pm: Option<PaymentMethod>,
                            proofUrl: string, userId: Option<string>)
    ensures var b := BookingRecord(f, names, pm, proofUrl, userId);
            && b.payment_status == PendingConfirmation
            && b.payment_proof_url == Some(proofUrl)
            && (b.card_last_four.Some? <==> pm == Some(Card))
            && (pm == Some(Card) ==> |b.card_last_four.value| == Min(|f.cardNumber|, 4))
            && (b.end_date.None? <==> f.endDate == "")
            && (b.notes.None? <==> f.notes == "")
            && (b.user_id.None? <==> !Truthy(userId))
            && (|names| == 1 ==> b.service_type == names[0])
  {
  }

  /**
   * `service_type` is the names joined with ", ": empty for no name, and each
   * further name appends ", " and that name; its length is the names' total
   * length plus two per separator.
   */
  lemma ServiceTypeOfSeveral(f: FormData, names: seq<string>, pm: Option<PaymentMethod>,
                             proofUrl: string, userId: Option<string>)
    ensures var t := BookingRecord(f, names, pm, proofUrl, userId).service_type;
            && (names == [] ==> t == "")
            && (|names| >= 2 ==> t == Join(names[..|names| - 1], ", ") + ", " + names[|names| - 1])
            && (names != [] ==> |t| == TotalLength(names) + 2 * (|names| - 1))
  {
    if |names| >= 2 {
      JoinSnoc(names[..|names| - 1], names[|names| - 1], ", ");
      assert names[..|names| - 1] + [names[|names| - 1]] == names;
    }
    if names != [] {
      JoinLength(names, ", ");
    }
  }

  /**
   * `service_type` keeps the selected names recoverable: when no name contains
   * ", ", splitting it at ", " gives back the names, in order.
   */
  lemma ServiceTypeRoundTrip(f: FormData, names: seq<string>, pm: Option<PaymentMethod>,
                             proofUrl: string, userId: Option<string>)
    requires names != []
    requires forall k :: 0 <= k < |names| ==> !Contains(names[k], ", ")
    ensures Split(BookingRecord(f, names, pm, proofUrl, userId).service_type, ", ") == names
  {
    SplitJoin(names);
  }

  /**
   * A name that contains ", " makes `service_type` ambiguous: one service
   * titled "Hajj, Umrah" and the two services "Hajj" and "Umrah" are stored alike.
   */
  lemma ServiceTypeAmbiguous(f: FormData, pm: Option<PaymentMethod>, proofUrl: string, userId: Option<string>)
    ensures BookingRecord(f, ["Hajj, Umrah"], pm, proofUrl, userId).service_type
            == BookingRecord(f, ["Hajj", "Umrah"], pm, proofUrl, userId).service_type
  {
    var two := ["Hajj", "Umrah"];
    assert two[1..] == ["Umrah"];
  }

  /**
   * A card number typed with sixteen digits is stored with its last four
   * digits: "4111 1111 1111 1234" gives "1234".
   */
  lemma CardBookingStoresLastDigits(f: FormData, raw: string, names: seq<string>, proofUrl: string, userId: Option<string>)
    requires f.cardNumber == CardText(raw) && |Digits(raw)| >= 16
    ensures BookingRecord(f, names, Some(Card), proofUrl, userId).card_last_four == Some(Digits(raw)[12..16])
  {
    LastFourOfFullCard(raw);
  }

  // ---------------------------------------------------------------------------
  // The page

  class Wizard {
    /** The services offered for selection (fetched once, active only, by sort_order). */
    const catalog: seq<Catalog.Service>
    /** The interface language of the surrounding context; the user may switch it at any time. */
    var language: string
    const userId: Option<string>

    var step: int
    var isSubmitting: bool
    var paymentMethod: Option<PaymentMethod>
    var proof: Option<ProofFile>
    var selectedIds: seq<string>
    var form: FormData
    /** Rows this page inserted into `bookings`. */
    var inserted: seq<NewBooking>
    /** Files this page uploaded to the `payment-proofs` bucket. */
    var uploaded: seq<ProofFile>

    /**
     * The page invariant: a step in 1..4; no submission in flight between
     * handlers; the selection is duplicate-free and names catalog services;
     * every step past 1 was entered with complete personal data, every step past
     * 2 with a complete trip, and the success step only after a proof was chosen.
     */
    ghost predicate Valid()
      reads this
    {
      && 1 <= step <= 4
      && !isSubmitting
      && NoDuplicates(selectedIds)
      && (forall id :: id in selectedIds ==> id in CatalogIds(catalog))
      && (step >= 2 ==> PersonalComplete(form))
      && (step >= 3 ==> TravelComplete(form, selectedIds))
      && (step == 4 ==> proof.Some? && |inserted| > 0)
    }

    /** What is selected is shown as localised names. */
    function Names(): seq<string>
      reads this
    {
      SelectedServiceNames(catalog, selectedIds, language)
    }

    /** Mount: the service fetch runs once; on an error the list stays empty. */
    constructor (services: seq<Catalog.Service>, fetch: Outcome, language: string, userId: Option<string>)
      ensures Valid()
      ensures catalog == Catalog.LoadCatalog(services, fetch)
      ensures this.language == language && this.userId == userId
      ensures step == 1 && paymentMethod.None? && proof.None? && selectedIds == []
      ensures form == EmptyForm && inserted == [] && uploaded == []
    {
      catalog := Catalog.LoadCatalog(services, fetch);
      this.language := language;
      this.userId := userId;
      step := 1;
      isSubmitting := false;
      paymentMethod := None;
      proof := None;
      selectedIds := [];
      form := EmptyForm;
      inserted := [];
      uploaded := [];
    }

    /** The inputs of a step exist only while that step (and, for the card holder, the card form) is shown. */
    predicate FieldShown(field: TextField)
      reads this
    {
      match field
      case Name | Email | Phone | Passport => step == 1
      case Destination | StartDate | EndDate | Notes => step == 2
      case CardHolder => step == 3 && paymentMethod == Some(Card)
    }

    /**
     * The language switch: `selectedServiceNames` is recomputed for the new
     * language, so the same services are named, now in that language, and a
     * later submission stores these names. Nothing else changes.
     */
    method SetLanguage(lang: string)
      requires Valid()
      modifies this`language
      ensures Valid()
      ensures language == lang
      ensures |Names()| == |old(Names())|
      ensures forall k :: 0 <= k < |Names()| ==>
                Names()[k] == Catalog.LocalizedTitle(SelectedServices(catalog, selectedIds)[k], lang)
    {
      language := lang;
    }

    /** `onChange` of a plain input: `setFormData({ ...formData, field: value })`. */
    method EditText(field: TextField, value: string)
      requires Valid() && FieldShown(field)
      modifies this`form
      ensures Valid()
      ensures form == WithText(old(form), field, value)
    {
      form := WithText(form, field, value);
    }

    /** The card-number input stores `formatCardNumber` of what was typed. */
    method TypeCardNumber(raw: string)
      requires Valid() && step == 3 && paymentMethod == Some(Card)
      modifies this`form
      ensures Valid()
      ensures form == old(form).(cardNumber := CardText(raw))
    {
      var formatted := FormatCardNumber(raw);
      form := form.(cardNumber := formatted);
    }

    /** The expiry input stores `formatExpiry` of what was typed. */
    method TypeExpiry(raw: string)
      requires Valid() && step == 3 && paymentMethod == Some(Card)
      modifies this`form
      ensures Valid()
      ensures form == old(form).(expiry := ExpiryText(raw))
      ensures |form.expiry| <= 5
    {
      ExpiryTextShape(raw);
      form := form.(expiry := ExpiryText(raw));
    }

    /** The CVV input keeps at most four digits of what was typed. */
    method TypeCvv(raw: string)
      requires Valid() && step == 3 && paymentMethod == Some(Card)
      modifies this`form
      ensures Valid()
      ensures form == old(form).(cvv := CvvText(raw))
      ensures AllDigits(form.cvv) && |form.cvv| <= 4
    {
      form := form.(cvv := CvvText(raw));
    }

    /** The checkbox of the `k`-th catalog service (rendered on step 2). */
    method ToggleService(k: nat)
      requires Valid() && step == 2 && k < |catalog|
      modifies this`selectedIds
      ensures Valid()
      ensures selectedIds == Toggled(old(selectedIds), catalog[k].id)
      ensures catalog[k].id in selectedIds <==> catalog[k].id !in old(selectedIds)
      ensures forall x :: x != catalog[k].id ==> (x in selectedIds <==> x in old(selectedIds))
    {
      ToggleKeepsNoDuplicates(selectedIds, catalog[k].id);
      assert catalog[k] in catalog;
      selectedIds := Toggled(selectedIds, catalog[k].id);
    }

    /** Step 1 Continue: moves to step 2 only when name, email, phone and passport are filled in. */
    method ContinueToTravel()
      requires Valid() && step == 1
      modifies this`step
      ensures Valid()
      ensures step == (if PersonalComplete(form) then 2 else 1)
    {
      if PersonalComplete(form) {
        step := 2;
      }
    }

    /** Step 2 Continue: moves to step 3 only with a service, a destination and a start date. */
    method ContinueToPayment()
      requires Valid() && step == 2
      modifies this`step
      ensures Valid()
      ensures step == (if TravelComplete(form, selectedIds) then 3 else 2)
    {
      if TravelComplete(form, selectedIds) {
        step := 3;
      }
    }

    /** Back: from step 3 to step 2 and from step 2 to step 1; nothing entered is lost. */
    method Back()
      requires Valid() && (step == 2 || step == 3)
      modifies this`step
      ensures Valid()
      ensures step == old(step) - 1
    {
      step := step - 1;
    }

    /** Picking card payment or payment by number. */
    method ChooseMethod(m: PaymentMethod)
      requires Valid() && step == 3 && paymentMethod.None?
      modifies this`paymentMethod
      ensures Valid()
      ensures paymentMethod == Some(m)
    {
      paymentMethod := Some(m);
    }

    /** "Change Method": back to the method choice; card fields are kept. */
    method ChangeMethod()
      requires Valid() && step == 3 && paymentMethod.Some?
      modifies this`paymentMethod
      ensures Valid()
      ensures paymentMethod.None?
    {
      paymentMethod := None;
    }

    /**
     * `handleFileSelect`: an accepted image replaces the chosen proof; no file,
     * a wrong type or a file over 5 MiB leaves the previous choice in place.
     */
    method SelectProof(file: Option<ProofFile>)
      requires Valid() && step == 3 && paymentMethod.Some?
      modifies this`proof
      ensures Valid()
      ensures proof == if file.Some? && AcceptsProof(file.value) then file else old(proof)
    {
      if file.Some? {
        if file.value.mimeType !in AllowedProofTypes {
          return;
        }
        if file.value.size > MaxProofBytes {
          return;
        }
        proof := file;
      }
    }

    /** The Submit button of the shown payment form is enabled. */
    predicate SubmitEnabled()
      reads this
    {
      match paymentMethod
      case Some(Card) => !isSubmitting && CardComplete(form) && proof.Some?
      case Some(Number) => !isSubmitting && proof.Some?
      case None => false
    }

    /**
     * `handleSubmit`: without a proof nothing happens. Otherwise the proof is
     * uploaded, then the booking is inserted; only when both succeed does the
     * wizard reach step 4. On any failure it stays on step 3 with every input
     * kept (a proof uploaded before a failed insert stays in the bucket).
     */
    method HandleSubmit(upload: Remote<string>, insert: Outcome)
      requires Valid() && step == 3
      modifies this`isSubmitting, this`step, this`inserted, this`uploaded
      ensures Valid()
      ensures !isSubmitting
      ensures old(proof).None? ==> step == 3 && inserted == old(inserted) && uploaded == old(uploaded)
      ensures old(proof).Some? ==>
                uploaded == old(uploaded) + (if upload.Done? then [old(proof).value] else [])
      ensures step == (if proof.Some? && upload.Done? && insert.Ok? then 4 else 3)
      ensures step == 4 ==>
                inserted == old(inserted) + [BookingRecord(form, Names(), paymentMethod, upload.value, userId)]
      ensures step == 3 ==> inserted == old(inserted)
    {
      if proof.None? {
        return;
      }
      isSubmitting := true;
      match upload {
        case Failed(_) =>
        case Done(publicUrl) =>
          uploaded := uploaded + [proof.value];
          var record := BookingRecord(form, Names(), paymentMethod, publicUrl, userId);
          if insert.Ok? {
            inserted := inserted + [record];
            step := 4;
          }
      }
      isSubmitting := false;
    }

    /** The Submit button: a click on a disabled button does nothing. */
    method ClickSubmit(upload: Remote<string>, insert: Outcome)
      requires Valid() && step == 3 && paymentMethod.Some?
      modifies this`isSubmitting, this`step, this`inserted, this`uploaded
      ensures Valid()
      ensures !old(SubmitEnabled()) ==> step == 3 && inserted == old(inserted) && uploaded == old(uploaded)
      ensures step == (if old(SubmitEnabled()) && upload.Done? && insert.Ok? then 4 else 3)
      ensures step == 4 ==>
                inserted == old(inserted) + [BookingRecord(form, Names(), paymentMethod, upload.value, userId)]
    {
      if SubmitEnabled() {
        HandleSubmit(upload, insert);
      }
    }
  }

  /**
   * A booking that reaches the table through the wizard was entered with every
   * required field, at least one service name, a proof URL, and status pending.
   */
  lemma SubmittedBookingIsComplete(f: FormData, catalog: seq<Catalog.Service>, ids: seq<string>, language: string,
                                   pm: Option<PaymentMethod>, proofUrl: string, userId: Option<string>)
    requires PersonalComplete(f) && TravelComplete(f, ids)
    requires forall id :: id in ids ==> id in CatalogIds(catalog)
    ensures var b := BookingRecord(f, SelectedServiceNames(catalog, ids, language), pm, proofUrl, userId);
            && b.name != "" && b.email != "" && b.phone != "" && b.passport != ""
            && b.destination != "" && b.start_date != ""
            && |SelectedServiceNames(catalog, ids, language)| > 0
            && b.payment_status == PendingConfirmation && b.payment_proof_url.Some?
  {
    SelectionHasNames(catalog, ids, language);
  }
}
