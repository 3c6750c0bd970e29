/** The edit-profile dialog: on submit it geocodes a non-blank address,
    gives up when the geocoder finds nothing, and otherwise upserts the
    user's profile row, keyed by user id, with empty values as null. */
module EditProfileDialog {
  import opened Values
  import opened Strings
  import opened Backend

  /** What the geocoder returns for an address it finds: the two numbers
      `parseFloat` read from the response, each possibly NaN. */
  datatype LatLng = LatLng(lat: Number, lng: Number)

  /** The `profile` state the form edits. Both fields start as empty
      strings; a loaded profile row may hold null in either. */
  datatype ProfileForm = ProfileForm(displayName: Option<string>, address: Option<string>)

  /** The columns the upsert writes. */
  datatype ProfileRow = ProfileRow(
    userId: string,
    displayName: Option<string>,
    address: Option<string>,
    latitude: Option<real>,
    longitude: Option<real>)

  /** `profile.address && profile.address.trim()`: the address is geocoded
      when it is present and not only white space. */
  predicate ShouldGeocode(address: Option<string>) {
    address.Some? && address.value != "" && Trim(address.value) != ""
  }

  /** The geocoder is consulted exactly for a present address that holds
      something other than white space. */
  lemma ShouldGeocodeIffNotBlank(address: Option<string>)
    ensures ShouldGeocode(address) <==> address.Some? && !IsBlank(address.value)
  {
    if address.Some? {
      TrimEmptyIffBlank(address.value);
    }
  }

  /** `coordinates?.lat`. */
  function Latitude(coords: Option<LatLng>): Option<Number> {
    if coords.Some? then Some(coords.value.lat) else None
  }

  /** `coordinates?.lng`. */
  function Longitude(coords: Option<LatLng>): Option<Number> {
    if coords.Some? then Some(coords.value.lng) else None
  }

  /** `profileData`: the row is the signed-in user's; a missing or empty
      name or address is stored as null; a coordinate is stored when it was
      found and is truthy, so a coordinate of exactly 0 (or NaN) is stored
      as null. */
  function ProfileData(userId: string, form: ProfileForm, coords: Option<LatLng>): (row: ProfileRow)
    ensures row.userId == userId
    ensures row.displayName.None? <==> form.displayName.None? || form.displayName.value == ""
    ensures row.displayName.Some? ==> row.displayName == form.displayName
    ensures row.address.None? <==> form.address.None? || form.address.value == ""
    ensures row.address.Some? ==> row.address == form.address
    ensures row.latitude.Some? <==> coords.Some? && Truthy(coords.value.lat)
    ensures row.longitude.Some? <==> coords.Some? && Truthy(coords.value.lng)
    ensures row.latitude.Some? ==> coords.value.lat == Finite(row.latitude.value)
    ensures row.longitude.Some? ==> coords.value.lng == Finite(row.longitude.value)
  {
    ProfileRow(
      userId,
      NullIfFalsy(form.displayName),
      NullIfFalsy(form.address),
      NumberOrNull(Latitude(coords)),
      NumberOrNull(Longitude(coords)))
  }

  /** An address of only white space is not geocoded but still stored as
      typed, so the row gets an address and no coordinates. */
  lemma BlankAddressStoredWithoutCoordinates(userId: string, form: ProfileForm)
    requires form.address.Some? && form.address.value != "" && IsBlank(form.address.value)
    ensures !ShouldGeocode(form.address)
    ensures var row := ProfileData(userId, form, None);
      row.address == form.address && row.latitude.None? && row.longitude.None?
  {
    ShouldGeocodeIffNotBlank(form.address);
  }

  /** A place on the equator or the prime meridian loses that coordinate:
      `0 || null` is null. */
  lemma ZeroCoordinateDropped(userId: string, form: ProfileForm, lng: Number)
    ensures ProfileData(userId, form, Some(LatLng(Finite(0.0), lng))).latitude.None?
    ensures ProfileData(userId, form, Some(LatLng(lng, Finite(0.0)))).longitude.None?
  {
  }

  /** Every key of the profiles table is the user id of its row. */
  predicate KeyedByUser(rows: map<string, ProfileRow>) {
    forall k :: k in rows ==> rows[k].userId == k
  }

  /** `upsert(row, { onConflict: 'user_id' })`: the user's row is inserted
      or replaces the one already there, and every other user's row stays. */
  function UpsertRows(rows: map<string, ProfileRow>, row: ProfileRow): (r: map<string, ProfileRow>)
    ensures r.Keys == rows.Keys + {row.userId}
    ensures r[row.userId] == row
    ensures forall k :: k in rows && k != row.userId ==> r[k] == rows[k]
    ensures KeyedByUser(rows) ==> KeyedByUser(r)
  {
    rows[row.userId := row]
  }

  /** After an upsert the table holds exactly one profile of the user, the
      one just written. */
  lemma UpsertLeavesOneProfile(rows: map<string, ProfileRow>, row: ProfileRow)
    requires KeyedByUser(rows)
    ensures forall k :: k in UpsertRows(rows, row) && UpsertRows(rows, row)[k].userId == row.userId ==>
      k == row.userId && UpsertRows(rows, row)[k] == row
  {
  }

  /** The profiles table, as far as this dialog writes it. */
  class ProfilesTable {
    var rows: map<string, ProfileRow>

    constructor ()
      ensures rows == map[] && Valid()
    {
      rows := map[];
    }

    predicate Valid()
      reads this
    {
      KeyedByUser(rows)
    }

    /** One upsert call; the table changes only when the call succeeds. */
    method Upsert(row: ProfileRow, result: DbOutcome)
      modifies this
      ensures rows == if result.DbOk? then UpsertRows(old(rows), row) else old(rows)
      ensures old(Valid()) ==> Valid()
    {
      if result.DbOk? {
        rows := UpsertRows(rows, row);
      }
    }
  }

  /** How a submit ended. */
  datatype SubmitOutcome =
    | NotSignedIn
    | GeocodeFailed
    | Upserted(row: ProfileRow, result: DbOutcome)

  /** The dialog's state: whether it is open, the `loading` flag and the
      profile form. */
  class Dialog {
    var open: bool
    var loading: bool
    var form: ProfileForm

    constructor (open: bool)
      ensures this.open == open && !loading
      ensures form == ProfileForm(Some(""), Some(""))
    {
      this.open := open;
      loading := false;
      form := ProfileForm(Some(""), Some(""));
    }

    /** `fetchProfile`: a stored row replaces the form; no row, or an error,
        leaves it as it is. */
    method ProfileFetched(stored: Option<ProfileForm>)
      modifies this
      ensures form == if stored.Some? then stored.value else old(form)
      ensures open == old(open) && loading == old(loading)
    {
      if stored.Some? {
        form := stored.value;
      }
    }

    /** The user changes the fields. */
    method Edit(f: ProfileForm)
      modifies this
      ensures form == f
      ensures open == old(open) && loading == old(loading)
    {
      form := f;
    }

    /** `handleSubmit` with the signed-in user's id, if any, the geocoder and
        the outcome of the upsert. With nobody signed in nothing happens. A
        non-blank address is geocoded first; when the geocoder finds nothing
        the submit stops with `loading` false, the dialog open and the table
        untouched. Otherwise the profile row is upserted, `loading` ends
        false, and the dialog closes only when the upsert succeeded. */
    method HandleSubmit(user: Option<string>, geocode: string -> Option<LatLng>,
                        result: DbOutcome, db: ProfilesTable)
      returns (outcome: SubmitOutcome)
      modifies this, db
      ensures form == old(form)
      ensures outcome.NotSignedIn? <==> user.None?
      ensures user.Some? && !outcome.GeocodeFailed? ==> outcome.Upserted?
      ensures user.None? ==>
        outcome == NotSignedIn && open == old(open) && loading == old(loading) && db.rows == old(db.rows)
      ensures outcome.GeocodeFailed? <==>
        user.Some? && ShouldGeocode(old(form).address) && geocode(old(form).address.value).None?
      ensures outcome.GeocodeFailed? ==> !loading && open == old(open) && db.rows == old(db.rows)
      ensures outcome.Upserted? ==>
        && user.Some?
        && outcome.row == ProfileData(user.value, old(form),
             if ShouldGeocode(old(form).address) then geocode(old(form).address.value) else None)
        && outcome.result == result
        && db.rows == (if result.DbOk? then UpsertRows(old(db.rows), outcome.row) else old(db.rows))
        && !loading
        && open == (old(open) && result.DbError?)
      ensures old(db.Valid()) ==> db.Valid()
    {
      if user.None? {
        return NotSignedIn;
      }
      loading := true;
      var coordinates: Option<LatLng> := None;
      if ShouldGeocode(form.address) {
        coordinates := geocode(form.address.value);
        if coordinates.None? {
          loading := false;
          return GeocodeFailed;
        }
      }
      var row := ProfileData(user.value, form, coordinates);
      db.Upsert(row, result);
      if result.DbOk? {
        open := false;
      }
      loading := false;
      outcome := Upserted(row, result);
    }
  }
}
