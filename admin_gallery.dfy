/**
 * The administrator's gallery page (src/pages/admin/AdminGallery.tsx): the list
 * of every gallery item by `sort_order`, the create/edit dialog with its form,
 * the image upload that fills the form's `image_url`, the active toggle and
 * deletion.
 *
 * The remote `gallery` table is `table`; the list on screen is `gallery`,
 * taken by the last successful fetch. Remote calls are parameters giving their
 * outcome; `uploads` records the files sent to the `gallery` storage bucket.
 */
module AdminGallery {
  import opened Common
  import Ordering
  import Rows

  /** A row of the `gallery` table (the columns the page reads or writes). */
  datatype GalleryItem = GalleryItem(
    id: string,
    title: string,
    title_ar: Option<string>,
    description: Option<string>,
    description_ar: Option<string>,
    image_url: string,
    category: Option<string>,
    is_active: bool,
    sort_order: int)

  /** `formData` of the create/edit dialog. */
  datatype GalleryForm = GalleryForm(
    title: string, title_ar: string,
    description: string, description_ar: string,
    image_url: string, category: string, is_active: bool)

  /** The form's initial and reset value. */
  const DefaultForm := GalleryForm("", "", "", "", "", "", true)

  /** A file chosen in the image input. */
  datatype ImageFile = ImageFile(name: string, mimeType: string)

  /** `handleImageUpload` accepts any type starting with "image/". */
  predicate IsImage(f: ImageFile)
  {
    StartsWith(f.mimeType, "image/")
  }

  /** The guard at the top of `handleSubmit`: a title and an image. */
  predicate Required(f: GalleryForm)
  {
    f.title != "" && f.image_url != ""
  }

  function ItemId(g: GalleryItem): string
  {
    g.id
  }

  function ItemSortOrder(g: GalleryItem): int
  {
    g.sort_order
  }

  /** `openEditDialog`: an item loaded into the form, null text shown as '', the image URL as is. */
  function EditForm(g: GalleryItem): (r: GalleryForm)
    ensures r.title == g.title && r.image_url == g.image_url && r.is_active == g.is_active
    ensures r.title_ar == OrEmpty(g.title_ar) && r.description == OrEmpty(g.description)
    ensures r.description_ar == OrEmpty(g.description_ar) && r.category == OrEmpty(g.category)
  {
    GalleryForm(g.title, OrEmpty(g.title_ar), OrEmpty(g.description), OrEmpty(g.description_ar),
                g.image_url, OrEmpty(g.category), g.is_active)
  }

  /**
   * The `.update({...}).eq('id', id)` of an edit: the seven form fields are
   * written, empty optional text as null and `image_url` as is; the id and
   * `sort_order` stay.
   */
  function Edited(f: GalleryForm): GalleryItem -> GalleryItem
  {
    (g: GalleryItem) => g.(title := f.title, title_ar := OrNull(f.title_ar),
                           description := OrNull(f.description), description_ar := OrNull(f.description_ar),
                           image_url := f.image_url, category := OrNull(f.category), is_active := f.is_active)
  }

  /** What the edit payload does to an item, field by field. */
  lemma EditedFields(f: GalleryForm, g: GalleryItem)
    ensures var e := Edited(f)(g);
            && e.id == g.id && e.sort_order == g.sort_order
            && e.title == f.title && e.image_url == f.image_url && e.is_active == f.is_active
            && (e.title_ar.None? <==> f.title_ar == "")
            && (e.description.None? <==> f.description == "")
            && (e.description_ar.None? <==> f.description_ar == "")
            && (e.category.None? <==> f.category == "")
            && EditForm(e) == f
  {
  }

  /** The `.insert({...})` of a create: the form with `sort_order` set to the number of items listed. */
  function Created(id: string, f: GalleryForm, sortOrder: int): (r: GalleryItem)
    ensures r.id == id && r.sort_order == sortOrder
    ensures r == Edited(f)(r)
  {
    GalleryItem(id, f.title, OrNull(f.title_ar), OrNull(f.description), OrNull(f.description_ar),
                f.image_url, OrNull(f.category), f.is_active, sortOrder)
  }

  /**
   * Opening an item in the edit dialog and saving without a change writes the
   * item back unchanged exactly when its optional text fields are null or
   * non-empty; a stored '' comes back as null.
   */
  lemma EditRoundTrip(g: GalleryItem)
    ensures Edited(EditForm(g))(g) == g
            <==> Canonical(g.title_ar) && Canonical(g.description) && Canonical(g.description_ar) && Canonical(g.category)
  {
    OrEmptyOrNull(g.title_ar);
    OrEmptyOrNull(g.description);
    OrEmptyOrNull(g.description_ar);
    OrEmptyOrNull(g.category);
  }

  /**
   * The table after a successful save: the selected item edited in place, or,
   * with nothing selected, a new item appended.
   */
  function Saved(table: seq<GalleryItem>, selected: Option<GalleryItem>, f: GalleryForm,
                 newId: string, listed: int): (r: seq<GalleryItem>)
    ensures selected.Some? ==> |r| == |table|
    ensures selected.None? ==> r == table + [Created(newId, f, listed)]
  {
    if selected.Some? then Rows.Update(table, ItemId, selected.value.id, Edited(f))
    else table + [Created(newId, f, listed)]
  }

  /** A save keeps ids unique when a created item gets a fresh id. */
  lemma SavedKeepsUnique(table: seq<GalleryItem>, selected: Option<GalleryItem>, f: GalleryForm,
                         newId: string, listed: int)
    requires Rows.UniqueKeys(table, ItemId)
    requires selected.None? ==> forall g :: g in table ==> g.id != newId
    ensures Rows.UniqueKeys(Saved(table, selected, f, newId, listed), ItemId)
  {
    if selected.Some? {
      Rows.UpdateKeepsUnique(table, ItemId, selected.value.id, Edited(f));
    } else {
      var r := Saved(table, selected, f, newId, listed);
      forall i, j | 0 <= i < j < |r| ensures ItemId(r[i]) != ItemId(r[j]) {
        if j == |table| {
          assert r[i] == table[i];
          assert r[i] in table;
        }
      }
    }
  }

  /** The `is_active: !item.is_active` update of the toggle. */
  function ActiveTo(active: bool): GalleryItem -> GalleryItem
  {
    (g: GalleryItem) => g.(is_active := active)
  }

  /** `.update({ is_active: !g.is_active }).eq('id', g.id)` */
  function Toggled(table: seq<GalleryItem>, g: GalleryItem): (r: seq<GalleryItem>)
    ensures |r| == |table|
  {
    Rows.Update(table, ItemId, g.id, ActiveTo(!g.is_active))
  }

  /** `after` is `before` with the `is_active` flag of the row `g` flipped, and nothing else changed. */
  ghost predicate FlipsOnly(before: seq<GalleryItem>, after: seq<GalleryItem>, g: GalleryItem)
  {
    && |after| == |before|
    && forall j :: 0 <= j < |before| ==>
         after[j] == if before[j] == g then before[j].(is_active := !before[j].is_active) else before[j]
  }

  /** Toggling the item `g` of a table with unique ids flips its flag and changes no other item. */
  lemma ToggleOnlyRow(table: seq<GalleryItem>, g: GalleryItem)
    requires Rows.UniqueKeys(table, ItemId)
    ensures Rows.UniqueKeys(Toggled(table, g), ItemId)
    ensures g in table ==> FlipsOnly(table, Toggled(table, g), g)
  {
    Rows.UpdateKeepsUnique(table, ItemId, g.id, ActiveTo(!g.is_active));
    if g in table {
      Rows.UpdateOnlyRow(table, ItemId, g, ActiveTo(!g.is_active));
    }
  }

  /** `.select('*').order('sort_order', { ascending: true })`: inactive items too. */
  function Listed(table: seq<GalleryItem>): (r: seq<GalleryItem>)
    ensures multiset(r) == multiset(table)
  {
    Ordering.SortBy(table, ItemSortOrder)
  }

  /** A row of the list is a row of the table. */
  lemma ListedMember(table: seq<GalleryItem>, k: nat)
    requires k < |Listed(table)|
    ensures Listed(table)[k] in table
  {
    Ordering.SortByMembers(table, ItemSortOrder, Listed(table)[k]);
  }

  /** The admin list holds every item once, by ascending `sort_order`. */
  lemma ListedOrder(table: seq<GalleryItem>)
    ensures Ordering.SortedBy(Listed(table), ItemSortOrder)
    ensures forall g :: g in Listed(table) <==> g in table
    ensures |Listed(table)| == |table|
  {
    Ordering.SortBySorted(table, ItemSortOrder);
    forall g ensures g in Listed(table) <==> g in table {
      Ordering.SortByMembers(table, ItemSortOrder, g);
    }
  }

  // ---------------------------------------------------------------------------
  // The page

  class GalleryPage {
    /** The remote `gallery` table. */
    var table: seq<GalleryItem>
    /** The list on screen (`gallery` state). */
    var gallery: seq<GalleryItem>
    var form: GalleryForm
    /** `selectedItem`: the item being edited or deleted. */
    var selected: Option<GalleryItem>
    /** Files uploaded to the `gallery` bucket. */
    var uploads: seq<ImageFile>

    ghost predicate Valid()
      reads this
    {
      Rows.UniqueKeys(table, ItemId)
    }

    ghost predicate InSync()
      reads this
    {
      gallery == Listed(table)
    }

    /** Mount: default form, one fetch. */
    constructor (remote: seq<GalleryItem>, fetch: Outcome)
      requires Rows.UniqueKeys(remote, ItemId)
      ensures Valid()
      ensures table == remote && uploads == [] && form == DefaultForm && selected.None?
      ensures gallery == if fetch.Ok? then Listed(remote) else []
    {
      table := remote;
      gallery := if fetch.Ok? then Listed(remote) else [];
      form := DefaultForm;
      selected := None;
      uploads := [];
    }

    /** `fetchGallery`: a successful fetch replaces the list; a failed one keeps it. */
    method FetchGallery(fetch: Outcome)
      requires Valid()
      modifies this`gallery
      ensures Valid()
      ensures gallery == if fetch.Ok? then Listed(table) else old(gallery)
    {
      if fetch.Ok? {
        gallery := Listed(table);
      }
    }

    /** An input of the dialog changes the form. */
    method SetForm(f: GalleryForm)
      requires Valid()
      modifies this`form
      ensures Valid()
      ensures form == f
    {
      form := f;
    }

    /** `resetForm`: defaults and no selection. */
    method ResetForm()
      requires Valid()
      modifies this`form, this`selected
      ensures Valid()
      ensures form == DefaultForm && selected.None?
    {
      form := DefaultForm;
      selected := None;
    }

    /** `openCreateDialog` */
    method OpenCreate()
      requires Valid()
      modifies this`form, this`selected
      ensures Valid()
      ensures form == DefaultForm && selected.None?
    {
      selected := None;
      ResetForm();
    }

    /** `openEditDialog` on the listed item `k`: the item is selected and loaded into the form. */
    method OpenEdit(k: nat)
      requires Valid() && k < |gallery|
      modifies this`form, this`selected
      ensures Valid()
      ensures selected == Some(gallery[k]) && form == EditForm(gallery[k])
    {
      selected := Some(gallery[k]);
      form := EditForm(gallery[k]);
    }

    /** The delete button of item `k` selects it for the confirmation dialog. */
    method SelectForDelete(k: nat)
      requires Valid() && k < |gallery|
      modifies this`selected
      ensures Valid()
      ensures selected == Some(gallery[k])
    {
      selected := Some(gallery[k]);
    }

    /**
     * `handleImageUpload`: with no file, a non-image, or a failed upload the
     * form is unchanged; a successful upload sets the form's `image_url` to the
     * public URL and changes nothing else.
     */
    method HandleImageUpload(file: Option<ImageFile>, upload: Remote<string>)
      requires Valid()
      modifies this`form, this`uploads
      ensures Valid()
      ensures file.Some? && IsImage(file.value) && upload.Done? ==>
                form == old(form).(image_url := upload.value) && uploads == old(uploads) + [file.value]
      ensures !(file.Some? && IsImage(file.value) && upload.Done?) ==>
                form == old(form) && uploads == old(uploads)
    {
      if file.None? {
        return;
      }
      if !StartsWith(file.value.mimeType, "image/") {
        return;
      }
      match upload {
        case Failed(_) =>
        case Done(publicUrl) =>
          uploads := uploads + [file.value];
          form := form.(image_url := publicUrl);
      }
    }

    /**
     * `handleSubmit`. Without a title or an image nothing is written. Editing
     * updates the selected item's seven form fields and never its
     * `sort_order`; creating inserts an item whose `sort_order` is the length
     * of the list on screen. After a successful save the form is reset and the
     * list refetched; after a failure the form is kept.
     */
    method Submit(write: Outcome, newId: string, refetch: Outcome)
      requires Valid()
      requires selected.None? ==> forall g :: g in table ==> g.id != newId
      modifies this`table, this`gallery, this`form, this`selected
      ensures Valid()
      ensures !(Required(old(form)) && write.Ok?) ==>
                table == old(table) && gallery == old(gallery) && form == old(form) && selected == old(selected)
      ensures Required(old(form)) && write.Ok? ==>
                && form == DefaultForm && selected.None?
                && table == Saved(old(table), old(selected), old(form), newId, |old(gallery)|)
                && gallery == (if refetch.Ok? then Listed(table) else old(gallery))
    {
      if !Required(form) {
        return;
      }
      if write.Error? {
        return;
      }
      SavedKeepsUnique(table, selected, form, newId, |gallery|);
      table := Saved(table, selected, form, newId, |gallery|);
      ResetForm();
      FetchGallery(refetch);
    }

    /**
     * `toggleActive` on the listed item `k`: writes `is_active` as the negation
     * of the value on screen and no other field. When the list was in sync
     * with the table, that item's flag flips and no other item changes.
     */
    method ToggleActive(k: nat, write: Outcome, refetch: Outcome)
      requires Valid() && k < |gallery|
      modifies this`table, this`gallery
      ensures Valid()
      ensures table == if write.Ok? then Toggled(old(table), old(gallery)[k]) else old(table)
      ensures gallery == if write.Ok? && refetch.Ok? then Listed(table) else old(gallery)
      ensures old(InSync()) && write.Ok? ==> FlipsOnly(old(table), table, old(gallery)[k])
    {
      var g := gallery[k];
      if write.Error? {
        return;
      }
      if InSync() {
        assert g == Listed(table)[k];
        ListedMember(table, k);
      }
      ToggleOnlyRow(table, g);
      table := Toggled(table, g);
      FetchGallery(refetch);
    }

    /**
     * `handleDelete`: without a selection nothing happens; a successful delete
     * removes the selected id and clears the selection; a failed one changes nothing.
     */
    method HandleDelete(write: Outcome, refetch: Outcome)
      requires Valid()
      modifies this`table, this`gallery, this`selected
      ensures Valid()
      ensures old(selected).None? || write.Error? ==>
                table == old(table) && gallery == old(gallery) && selected == old(selected)
      ensures old(selected).Some? && write.Ok? ==>
                && table == Rows.Remove(old(table), ItemId, old(selected).value.id)
                && selected.None?
                && gallery == (if refetch.Ok? then Listed(table) else old(gallery))
      ensures old(selected).Some? && write.Ok? && old(selected).value in old(table) ==>
                |table| == |old(table)| - 1
    {
      if selected.None? {
        return;
      }
      if write.Error? {
        return;
      }
      Rows.RemoveKeepsUnique(table, ItemId, selected.value.id);
      if selected.value in table {
        var k :| 0 <= k < |table| && table[k] == selected.value;
        Rows.RemoveRemovesOne(table, ItemId, k);
      }
      table := Rows.Remove(table, ItemId, selected.value.id);
      selected := None;
      FetchGallery(refetch);
    }
  }
}
