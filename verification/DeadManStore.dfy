/** The state file as a mutable cell: strict bounded reads, atomic replacement through a temporary file. */
module DeadManStore {
  import opened Common
  import opened DeadMan
  import opened JsonTree
  import opened DeadManCodec
  import opened DeadManSize
  import DeadManDocument

  /** The bytes of a file: how many, and the JSON document they spell, if they spell one. */
  datatype Content = Content(size: nat, document: Option<Json>)

  datatype StoreError = Unreadable | TooLarge | Corrupt | CannotWrite | Unencodable | Died

  /** Where the file system or the process fails during one save. */
  datatype Fault =
    | NoFault
    | CannotCreate
    | CannotFill(removed: bool)
    | CannotReplace(removed: bool)
    | DiesBeforeReplace
    | DiesAfterReplace

  /** A death before the replacement leaves the temporary file behind, and so does a failure whose
      best-effort removal fails too. */
  predicate Litters(fault: Fault) {
    match fault
    case CannotFill(removed) => !removed
    case CannotReplace(removed) => !removed
    case DiesBeforeReplace => true
    case _ => false
  }

  /** The encoding is representable and within the bound reads enforce. */
  predicate Fits(s: Status)
    requires Valid(s)
  {
    Encodable(s) && (DocumentSize(s); |Print(Document(s))| <= MAX_DEADMAN_STATE_BYTES)
  }

  function ContentOf(s: Status): Content
    requires Valid(s) && Encodable(s)
  {
    DocumentSize(s);
    Content(|Print(Document(s))|, Some(Document(s)))
  }

  /** The new content is on disk after a save with this fault. */
  predicate Lands(s: Status, fault: Fault)
    requires Valid(s)
  {
    Fits(s) && fault in {NoFault, DiesAfterReplace}
  }

  function Read(read: Reader, file: Option<Content>): Result<Status, StoreError> {
    if file.None? then Ok(INITIAL)
    else if file.value.size > MAX_DEADMAN_STATE_BYTES then Err(TooLarge)
    else if file.value.document.None? then Err(Corrupt)
    else
      var decoded := Decode(read, file.value.document.value);
      if decoded.Ok? then Ok(decoded.value) else Err(Corrupt)
  }

  /** The content of a file the program can go on from: within 1 MiB, and a document that decodes. */
  predicate Intact(read: Reader, content: Content) {
    && content.size <= 1_048_576
    && content.document.Some?
    && Decode(read, content.document.value).Ok?
  }

  /** What is written within the bound reads back as the status that was saved. */
  lemma WrittenIsRead(read: Reader, s: Status)
    requires ReadsCanonical(read) && Valid(s) && Fits(s)
    ensures Read(read, Some(ContentOf(s))) == Ok(s)
  {
    hide Decode, Document, Valid, Encodable;
    RoundTrip(read, s);
  }

  /** Reading never yields anything but a valid status. */
  lemma ReadIsValid(read: Reader, file: Option<Content>)
    requires Read(read, file).Ok?
    ensures Valid(Read(read, file).value)
  {
    hide Decode;
    if file.Some? {
      DeadManDocument.DecodesToValid(read, file.value.document.value);
    }
  }

  class StateStore {
    const read: Reader
    var file: Option<Content>
    /** Temporary files left beside the state file. */
    var temporaries: nat

    constructor (read: Reader, file: Option<Content>)
      ensures this.read == read && this.file == file && temporaries == 0
    {
      this.read, this.file, temporaries := read, file, 0;
    }

    method Load(unreadable: bool) returns (r: Result<Status, StoreError>)
      ensures r == if unreadable && file.Some? then Err(Unreadable) else Read(read, file)
      ensures file.None? ==> r == Ok(INITIAL)
      ensures file.Some? ==> (r.Ok? <==> !unreadable && Intact(read, file.value))
      ensures file.Some? && r.Ok? ==> Ok(r.value) == Decode(read, file.value.document.value)
      ensures r.Ok? ==> Valid(r.value)
    {
      hide Decode, Valid;
      if file.None? { ReadIsValid(read, file); return Ok(INITIAL); }
      if unreadable { return Err(Unreadable); }
      if file.value.size > MAX_DEADMAN_STATE_BYTES { return Err(TooLarge); }
      if file.value.document.None? { return Err(Corrupt); }
      var decoded := Decode(read, file.value.document.value);
      if decoded.Err? { return Err(Corrupt); }
      ReadIsValid(read, file);
      return Ok(decoded.value);
    }

    /** The file afterwards is exactly the old content or exactly the new one, success means the new
        one, and a temporary file stays behind exactly where the fault leaves one. */
    method Save(s: Status, fault: Fault) returns (r: Result<(), StoreError>)
      requires Valid(s)
      modifies this
      ensures file == if Lands(s, fault) then Some(ContentOf(s)) else old(file)
      ensures r.Ok? <==> Fits(s) && fault == NoFault
      ensures temporaries == old(temporaries) + (if Fits(s) && Litters(fault) then 1 else 0)
    {
      hide Document, Valid, Encodable, Print, Plain;
      var encoded := Encode(s);
      if encoded.Err? { return Err(Unencodable); }
      DocumentSize(s);
      var size := |Print(encoded.value)|;
      if size > MAX_DEADMAN_STATE_BYTES { return Err(TooLarge); }
      if fault == CannotCreate { return Err(CannotWrite); }
      temporaries := temporaries + 1;
      if fault.CannotFill? {
        if fault.removed { temporaries := temporaries - 1; }
        return Err(CannotWrite);
      }
      if fault == DiesBeforeReplace { return Err(Died); }
      if fault.CannotReplace? {
        if fault.removed { temporaries := temporaries - 1; }
        return Err(CannotWrite);
      }
      file, temporaries := Some(Content(size, Some(encoded.value))), temporaries - 1;
      if fault == DiesAfterReplace { return Err(Died); }
      return Ok(());
    }
  }
}
