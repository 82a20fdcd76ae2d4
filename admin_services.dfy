/**
 * The administrator's services page (src/pages/admin/AdminServices.tsx): the
 * list of every service by `sort_order`, the create/edit dialog with its form,
 * image selection and upload, the active toggle and deletion.
 *
 * The remote `services` table is `table` (rows are `Catalog.Service`); the
 * list on screen is `services`, taken by the last successful fetch. Remote
 * calls are parameters giving their outcome; `uploads` records the image
 * files sent to the `services` storage bucket.
 */
module AdminServices {
  import opened Common
  import Ordering
  import Rows
  import Catalog

  type Service = Catalog.Service

  /** `formData` of the create/edit dialog. */
  datatype ServiceForm = ServiceForm(
    title: string, title_ar: string,
    description: string, description_ar: string,
    icon: string, image_url: string, is_active: bool)

  /** The form's initial and reset value. */
  const DefaultForm := ServiceForm("", "", "", "", "Briefcase", "", true)

  /** A file chosen in the image input. */
  datatype ImageFile = ImageFile(name: string, mimeType: string)

  /** `imagePreview`: nothing, the data URL of a chosen file, or the stored image URL. */
  datatype Preview = NoPreview | LocalFile(file: ImageFile) | StoredImage(url: string)

  /** `handleImageSelect` accepts any type starting with "image/". */
  predicate IsImage(f: ImageFile)
  {
    StartsWith(f.mimeType, "image/")
  }

  /** The guard at the top of `handleSubmit`. */
  predicate Required(f: ServiceForm)
  {
    f.title != "" && f.description != ""
  }

  function ServiceId(s: Service): string
  {
    s.id
  }

  /** `openEditDialog`: a row loaded into the form, null text shown as ''. */
  function EditForm(s: Service): (r: ServiceForm)
    ensures r.title == s.title && r.description == s.description && r.icon == s.icon
    ensures r.is_active == s.is_active
    ensures r.title_ar == OrEmpty(s.title_ar) && r.description_ar == OrEmpty(s.description_ar)
    ensures r.image_url == OrEmpty(s.image_url)
  {
    ServiceForm(s.title, OrEmpty(s.title_ar), s.description, OrEmpty(s.description_ar),
                s.icon, OrEmpty(s.image_url), s.is_active)
  }

  /**
   * The image URL written on save: the uploaded file's public URL when a file
   * was chosen and its URL is non-empty, else the form's `image_url`.
   */
  function SavedImageUrl(f: ServiceForm, file: Option<ImageFile>, upload: Remote<string>): (r: string)
    ensures file.None? ==> r == f.image_url
    ensures file.Some? && upload.Done? && upload.value != "" ==> r == upload.value
    ensures r == f.image_url || (file.Some? && upload.Done? && r == upload.value)
  {
    if file.Some? && upload.Done? && upload.value != "" then upload.value else f.image_url
  }

  /**
   * The `.update({...}).eq('id', id)` of an edit: the seven form fields are
   * written, empty optional text as null; the id and `sort_order` stay.
   */
  function Edited(f: ServiceForm, imageUrl: string): Service -> Service
  {
    (s: Service) => s.(title := f.title, title_ar := OrNull(f.title_ar),
                       description := f.description, description_ar := OrNull(f.description_ar),
                       icon := f.icon, image_url := OrNull(imageUrl), is_active := f.is_active)
  }

  /** What the edit payload does to a row, field by field. */
  lemma EditedFields(f: ServiceForm, imageUrl: string, s: Service)
    ensures var e := Edited(f, imageUrl)(s);
            && e.id == s.id && e.sort_order == s.sort_order
            && e.title == f.title && e.description == f.description && e.icon == f.icon
            && e.is_active == f.is_active
            && (e.title_ar.None? <==> f.title_ar == "")
            && (e.description_ar.None? <==> f.description_ar == "")
            && (e.image_url.None? <==> imageUrl == "")
            && OrEmpty(e.title_ar) == f.title_ar && OrEmpty(e.description_ar) == f.description_ar
            && OrEmpty(e.image_url) == imageUrl
            && EditForm(e) == f.(image_url := imageUrl)
  {
  }

  /** The `.insert({...})` of a create: the form with `sort_order` set to the number of services listed. */
  function Created(id: string, f: ServiceForm, imageUrl: string, sortOrder: int): (r: Service)
    ensures r.id == id && r.sort_order == sortOrder
    ensures r == Edited(f, imageUrl)(r)
  {
    Catalog.Service(id, f.title, OrNull(f.title_ar), f.description, OrNull(f.description_ar),
                    f.icon, OrNull(imageUrl), f.is_active, sortOrder)
  }

  /**
   * Opening a row in the edit dialog and saving without a change writes the
   * row back unchanged exactly when its optional text fields are null or
   * non-empty; a stored '' comes back as null.
   */
  lemma EditRoundTrip(s: Service)
    ensures Edited(EditForm(s), EditForm(s).image_url)(s) == s
            <==> Canonical(s.title_ar) && Canonical(s.description_ar) && Canonical(s.image_url)
  {
    OrEmptyOrNull(s.title_ar);
    OrEmptyOrNull(s.description_ar);
    OrEmptyOrNull(s.image_url);
  }

  /**
   * The table after a successful save: the selected row edited in place, or,
   * with nothing selected, a new row appended.
   */
  function Saved(table: seq<Service>, selected: Option<Service>, f: ServiceForm, imageUrl: string,
                 newId: string, listed: int): (r: seq<Service>)
    ensures selected.Some? ==> |r| == |table|
    ensures selected.None? ==> r == table + [Created(newId, f, imageUrl, listed)]
  {
    if selected.Some? then Rows.Update(table, ServiceId, selected.value.id, Edited(f, imageUrl))
    else table + [Created(newId, f, imageUrl, listed)]
  }

  /** A save keeps ids unique when a created row gets a fresh id. */
  lemma SavedKeepsUnique(table: seq<Service>, selected: Option<Service>, f: ServiceForm, imageUrl: string,
                         newId: string, listed: int)
    requires Rows.UniqueKeys(table, ServiceId)
    requires selected.None? ==> forall s :: s in table ==> s.id != newId
    ensures Rows.UniqueKeys(Saved(table, selected, f, imageUrl, newId, listed), ServiceId)
  {
    if selected.Some? {
      forall s ensures ServiceId(Edited(f, imageUrl)(s)) == ServiceId(s) {
        EditedFields(f, imageUrl, s);
      }
      Rows.UpdateKeepsUnique(table, ServiceId, selected.value.id, Edited(f, imageUrl));
    } else {
      var r := Saved(table, selected, f, imageUrl, newId, listed);
      forall i, j | 0 <= i < j < |r| ensures ServiceId(r[i]) != ServiceId(r[j]) {
        if j == |table| {
          assert r[i] == table[i];
          assert r[i] in table;
        }
      }
    }
  }

  /** The `is_active: !service.is_active` update of the toggle. */
  function ActiveTo(active: bool): Service -> Service
  {
    (s: Service) => s.(is_active := active)
  }

  /** `.update({ is_active: !s.is_active }).eq('id', s.id)` */
  function Toggled(table: seq<Service>, s: Service): (r: seq<Service>)
    ensures |r| == |table|
  {
    Rows.Update(table, ServiceId, s.id, ActiveTo(!s.is_active))
  }

  /** `after` is `before` with the `is_active` flag of the row `s` flipped, and nothing else changed. */
  ghost predicate FlipsOnly(before: seq<Service>, after: seq<Service>, s: Service)
  {
    && |after| == |before|
    && forall j :: 0 <= j < |before| ==>
         after[j] == if before[j] == s then before[j].(is_active := !before[j].is_active) else before[j]
  }

  /** Toggling the row `s` of a table with unique ids flips its flag and changes no other row. */
  lemma ToggleOnlyRow(table: seq<Service>, s: Service)
    requires Rows.UniqueKeys(table, ServiceId)
    ensures Rows.UniqueKeys(Toggled(table, s), ServiceId)
    ensures s in table ==> FlipsOnly(table, Toggled(table, s), s)
  {
    Rows.UpdateKeepsUnique(table, ServiceId, s.id, ActiveTo(!s.is_active));
    if s in table {
      Rows.UpdateOnlyRow(table, ServiceId, s, ActiveTo(!s.is_active));
    }
  }

  /** `.select('*').order('sort_order', { ascending: true })`: inactive services too. */
  function Listed(table: seq<Service>): (r: seq<Service>)
    ensures multiset(r) == multiset(table)
  {
    Ordering.SortBy(table, Catalog.SortOrder)
  }

  /** A row of the list is a row of the table. */
  lemma ListedMember(table: seq<Service>, k: nat)
    requires k < |Listed(table)|
    ensures Listed(table)[k] in table
  {
    Ordering.SortByMembers(table, Catalog.SortOrder, Listed(table)[k]);
  }

  /** The admin list holds every row once, by ascending `sort_order`. */
  lemma ListedOrder(table: seq<Service>)
    ensures Ordering.SortedBy(Listed(table), Catalog.SortOrder)
    ensures forall s :: s in Listed(table) <==> s in table
    ensures |Listed(table)| == |table|
  {
    Ordering.SortBySorted(table, Catalog.SortOrder);
    forall s ensures s in Listed(table) <==> s in table {
      Ordering.SortByMembers(table, Catalog.SortOrder, s);
    }
  }

  /**
   * While the rows carry the sort orders 0..n-1 that creation hands out, a new
   * service (sort order n, the list length) sorts after every existing one.
   */
  lemma CreatedSortsLast(table: seq<Service>, id: string, f: ServiceForm, imageUrl: string)
    requires forall s :: s in table ==> 0 <= s.sort_order < |table|
    ensures forall s :: s in table ==> s.sort_order < Created(id, f, imageUrl, |Listed(table)|).sort_order
  {
    ListedOrder(table);
  }

  /**
   * Creation uses the list length, and deletion never renumbers: after the
   * service with sort order 0 of [0, 1] is deleted, a new service receives
   * sort order 1, the same as the remaining one.
   */
  lemma CreateAfterDeleteRepeatsSortOrder(a: Service, b: Service, id: string, f: ServiceForm, imageUrl: string)
    requires a.id != b.id && a.sort_order == 0 && b.sort_order == 1
    ensures var rest := Rows.Remove([a, b], ServiceId, a.id);
            && rest == [b]
            && Created(id, f, imageUrl, |Listed(rest)|).sort_order == b.sort_order
  {
    var rest := Rows.Remove([a, b], ServiceId, a.id);
    assert b in rest && a !in rest;
    assert |rest| <= 2;
    assert Rows.Remove([b], ServiceId, a.id) == [b];
    assert rest == [b];
    ListedOrder(rest);
  }

  // ---------------------------------------------------------------------------
  // The page

  class ServicesPage {
    /** The remote `services` table. */
    var table: seq<Service>
    /** The list on screen (`services` state). */
    var services: seq<Service>
    var form: ServiceForm
    /** `selectedService`: the row being edited or deleted. */
    var selected: Option<Service>
    var imageFile: Option<ImageFile>
    var preview: Preview
    /** Files uploaded to the `services` bucket. */
    var uploads: seq<ImageFile>

    ghost predicate Valid()
      reads this
    {
      Rows.UniqueKeys(table, ServiceId)
    }

    ghost predicate InSync()
      reads this
    {
      services == Listed(table)
    }

    /** The form, selection, file and preview as `resetForm` leaves them. */
    ghost predicate Cleared()
      reads this
    {
      form == DefaultForm && selected.None? && imageFile.None? && preview == NoPreview
    }

    /** Mount: default form, one fetch. */
    constructor (remote: seq<Service>, fetch: Outcome)
      requires Rows.UniqueKeys(remote, ServiceId)
      ensures Valid() && Cleared()
      ensures table == remote && uploads == []
      ensures services == if fetch.Ok? then Listed(remote) else []
    {
      table := remote;
      services := if fetch.Ok? then Listed(remote) else [];
      form := DefaultForm;
      selected := None;
      imageFile := None;
      preview := NoPreview;
      uploads := [];
    }

    /** `fetchServices`: a successful fetch replaces the list; a failed one keeps it. */
    method FetchServices(fetch: Outcome)
      requires Valid()
      modifies this`services
      ensures Valid()
      ensures services == if fetch.Ok? then Listed(table) else old(services)
    {
      if fetch.Ok? {
        services := Listed(table);
      }
    }

    /** An input of the dialog changes the form. */
    method SetForm(f: ServiceForm)
      requires Valid()
      modifies this`form
      ensures Valid()
      ensures form == f
    {
      form := f;
    }

    /** `resetForm`: defaults, no selection, no file, no preview. */
    method ResetForm()
      requires Valid()
      modifies this`form, this`selected, this`imageFile, this`preview
      ensures Valid() && Cleared()
    {
      form := DefaultForm;
      selected := None;
      imageFile := None;
      preview := NoPreview;
    }

    /** `openCreateDialog` */
    method OpenCreate()
      requires Valid()
      modifies this`form, this`selected, this`imageFile, this`preview
      ensures Valid() && Cleared()
    {
      selected := None;
      ResetForm();
    }

    /** `openEditDialog` on the listed row `k`: the row is selected and loaded into the form. */
    method OpenEdit(k: nat)
      requires Valid() && k < |services|
      modifies this`form, this`selected, this`imageFile, this`preview
      ensures Valid()
      ensures selected == Some(services[k]) && form == EditForm(services[k]) && imageFile.None?
      ensures preview == if Truthy(services[k].image_url) then StoredImage(services[k].image_url.value) else NoPreview
    {
      var s := services[k];
      selected := Some(s);
      form := EditForm(s);
      preview := if Truthy(s.image_url) then StoredImage(s.image_url.value) else NoPreview;
      imageFile := None;
    }

    /** The delete button of row `k` selects it for the confirmation dialog. */
    method SelectForDelete(k: nat)
      requires Valid() && k < |services|
      modifies this`selected
      ensures Valid()
      ensures selected == Some(services[k])
    {
      selected := Some(services[k]);
    }

    /**
     * `handleImageSelect`: an image file becomes the chosen file and its
     * preview; no file or a non-image leaves both as they were.
     */
    method HandleImageSelect(file: Option<ImageFile>)
      requires Valid()
      modifies this`imageFile, this`preview
      ensures Valid()
      ensures file.Some? && IsImage(file.value) ==> imageFile == file && preview == LocalFile(file.value)
      ensures !(file.Some? && IsImage(file.value)) ==> imageFile == old(imageFile) && preview == old(preview)
    {
      if file.Some? {
        if !StartsWith(file.value.mimeType, "image/") {
          return;
        }
        imageFile := file;
        preview := LocalFile(file.value);
      }
    }

    /** `removeImage`: no file, no preview, and an empty `image_url`; nothing else in the form changes. */
    method RemoveImage()
      requires Valid()
      modifies this`imageFile, this`preview, this`form
      ensures Valid()
      ensures imageFile.None? && preview == NoPreview
      ensures form == old(form).(image_url := "")
    {
      imageFile := None;
      preview := NoPreview;
      form := form.(image_url := "");
    }

    /** The save succeeds: the guard passes, a chosen file uploads, and the write succeeds. */
    ghost predicate SaveSucceeds(upload: Remote<string>, write: Outcome)
      reads this
    {
      Required(form) && (imageFile.None? || upload.Done?) && write.Ok?
    }

    /**
     * `handleSubmit`. Without a title or a description nothing is uploaded or
     * written. Otherwise a chosen file is uploaded first (a failed upload
     * writes nothing). Editing updates the selected row's seven form fields and
     * never its `sort_order`; creating inserts a row whose `sort_order` is the
     * length of the list on screen. After a successful save the form is reset
     * and the list refetched; after any failure the form is kept.
     */
    method Submit(upload: Remote<string>, write: Outcome, newId: string, refetch: Outcome)
      requires Valid()
      requires selected.None? ==> forall s :: s in table ==> s.id != newId
      modifies this`table, this`services, this`form, this`selected, this`imageFile, this`preview, this`uploads
      ensures Valid()
      ensures uploads == old(uploads) + (if Required(old(form)) && old(imageFile).Some? && upload.Done?
                                         then [old(imageFile).value] else [])
      ensures !old(SaveSucceeds(upload, write)) ==>
                && table == old(table) && services == old(services)
                && form == old(form) && selected == old(selected)
                && imageFile == old(imageFile) && preview == old(preview)
      ensures old(SaveSucceeds(upload, write)) ==>
                && Cleared()
                && table == Saved(old(table), old(selected), old(form),
                                  SavedImageUrl(old(form), old(imageFile), upload), newId, |old(services)|)
                && services == (if refetch.Ok? then Listed(table) else old(services))
    {
      if !Required(form) {
        return;
      }
      var imageUrl := form.image_url;
      if imageFile.Some? {
        match upload {
          case Failed(_) =>
            return;
          case Done(publicUrl) =>
            uploads := uploads + [imageFile.value];
            if publicUrl != "" {
              imageUrl := publicUrl;
            }
        }
      }
      assert imageUrl == SavedImageUrl(form, imageFile, upload);
      if write.Error? {
        return;
      }
      SavedKeepsUnique(table, selected, form, imageUrl, newId, |services|);
      table := Saved(table, selected, form, imageUrl, newId, |services|);
      ResetForm();
      FetchServices(refetch);
    }

    /**
     * `toggleActive` on the listed row `k`: writes `is_active` as the negation
     * of the value on screen and no other field. When the list was in sync
     * with the table, that row's flag flips and no other row changes.
     */
    method ToggleActive(k: nat, write: Outcome, refetch: Outcome)
      requires Valid() && k < |services|
      modifies this`table, this`services
      ensures Valid()
      ensures table == if write.Ok? then Toggled(old(table), old(services)[k]) else old(table)
      ensures services == if write.Ok? && refetch.Ok? then Listed(table) else old(services)
      ensures old(InSync()) && write.Ok? ==> FlipsOnly(old(table), table, old(services)[k])
    {
      var s := services[k];
      if write.Error? {
        return;
      }
      if InSync() {
        assert s == Listed(table)[k];
        ListedMember(table, k);
      }
      ToggleOnlyRow(table, s);
      table := Toggled(table, s);
      FetchServices(refetch);
    }

    /**
     * `handleDelete`: without a selection nothing happens; a successful delete
     * removes the selected id and clears the selection; a failed one changes nothing.
     */
    method HandleDelete(write: Outcome, refetch: Outcome)
      requires Valid()
      modifies this`table, this`services, this`selected
      ensures Valid()
      ensures old(selected).None? || write.Error? ==>
                table == old(table) && services == old(services) && selected == old(selected)
      ensures old(selected).Some? && write.Ok? ==>
                && table == Rows.Remove(old(table), ServiceId, old(selected).value.id)
                && selected.None?
                && services == (if refetch.Ok? then Listed(table) else old(services))
      ensures old(selected).Some? && write.Ok? && old(selected).value in old(table) ==>
                |table| == |old(table)| - 1
    {
      if selected.None? {
        return;
      }
      if write.Error? {
        return;
      }
      Rows.RemoveKeepsUnique(table, ServiceId, selected.value.id);
      if selected.value in table {
        var k :| 0 <= k < |table| && table[k] == selected.value;
        Rows.RemoveRemovesOne(table, ServiceId, k);
      }
      table := Rows.Remove(table, ServiceId, selected.value.id);
      selected := None;
      FetchServices(refetch);
    }
  }
}
