/** The `dump` command (dumpProduct): finds the product under the first product type
    that knows it, describes it, drops its version list and writes the rest to
    `data/<product>/description.yaml` unless that file already holds exactly it. */
module ProductDump {
  import opened Common
  import opened FileStore
  import opened Catalog

  /** The description dumpProduct writes: the product resolved over the product
      types, described, and marshalled without its versions. `describe` stands for
      DescribeEntity followed by json.Unmarshal, `marshal` for yaml.Marshal. */
  function Description<F, D>(product: string,
                             listEntities: string -> Result<Page, ApiError>,
                             describe: string -> Result<EntityDetails<F, D>, string>,
                             marshal: EntityDetails<F, D> -> Result<Bytes, string>): Result<Bytes, Error>
  {
    match ResolveProduct(product, listEntities)
    case Failure(e) => Failure(e)
    case Success(found) =>
      match describe(found.entityId)
      case Failure(m) => Failure(External(m))
      case Success(details) =>
        match marshal(details.(versions := []))
        case Failure(m) => Failure(External(m))
        case Success(data) => Success(data)
  }

  /** dumpProduct: the description, then the skip-unchanged write. */
  function DumpProductSpec<F, D>(d: Disk, product: string,
                                 listEntities: string -> Result<Page, ApiError>,
                                 describe: string -> Result<EntityDetails<F, D>, string>,
                                 marshal: EntityDetails<F, D> -> Result<Bytes, string>): (Outcome, Disk)
  {
    match Description(product, listEntities, describe, marshal)
    case Failure(e) => (Fail(e), d)
    case Success(data) =>
      var (w, d1) := d.WriteIfChanged(DescriptionFile(product), data);
      (if w.Failed? then Fail(w.error) else Pass, d1)
  }

  /** A successful dump leaves the description file holding the marshalled
      description; it changes the store only when the file did not already hold it,
      and it never touches another file. It fails exactly when the description
      cannot be produced (writing nothing), the file exists but cannot be read, or
      the file must be written and the write is refused. */
  lemma DumpProductWritesDescription<F, D>(d: Disk, product: string,
                                           listEntities: string -> Result<Page, ApiError>,
                                           describe: string -> Result<EntityDetails<F, D>, string>,
                                           marshal: EntityDetails<F, D> -> Result<Bytes, string>)
    ensures var (r, d') := DumpProductSpec(d, product, listEntities, describe, marshal);
            var data := Description(product, listEntities, describe, marshal);
            var p := DescriptionFile(product);
            && (r == Pass ==> data.Success? && d'.Read(p) == Success(data.value))
            && (r == Pass && d.Read(p) == Success(data.value) ==> d' == d)
            && (data.Failure? ==> r == Fail(data.error) && d' == d)
            && (r.Fail? <==>
                  data.Failure? ||
                  (p in d.files && d.files[p] == Unreadable) ||
                  (d.Read(p) != Success(data.value) && p in d.readOnly))
            && (r.Fail? ==> d'.files == d.files)
            && (forall q :: q != p ==> d'.Read(q) == d.Read(q))
  {
  }

  /** The version list does not reach the file: two descriptions that differ only
      in their versions give the same dump. */
  lemma DumpProductIgnoresVersions<F, D>(d: Disk, product: string,
                                         listEntities: string -> Result<Page, ApiError>,
                                         describe1: string -> Result<EntityDetails<F, D>, string>,
                                         describe2: string -> Result<EntityDetails<F, D>, string>,
                                         marshal: EntityDetails<F, D> -> Result<Bytes, string>)
    requires forall id :: describe1(id).Success? <==> describe2(id).Success?
    requires forall id :: describe1(id).Failure? ==> describe1(id) == describe2(id)
    requires forall id :: describe1(id).Success? ==> describe1(id).value.rest == describe2(id).value.rest
    ensures DumpProductSpec(d, product, listEntities, describe1, marshal) ==
            DumpProductSpec(d, product, listEntities, describe2, marshal)
  {
    if ResolveProduct(product, listEntities).Success? {
      var id := ResolveProduct(product, listEntities).value.entityId;
      if describe1(id).Success? {
        assert describe1(id).value.(versions := []) == describe2(id).value.(versions := []);
      }
    }
  }

  /** Dumping twice with the same catalog answers: the second dump succeeds and
      writes nothing. */
  lemma DumpProductTwice<F, D>(d: Disk, product: string,
                               listEntities: string -> Result<Page, ApiError>,
                               describe: string -> Result<EntityDetails<F, D>, string>,
                               marshal: EntityDetails<F, D> -> Result<Bytes, string>)
    requires DumpProductSpec(d, product, listEntities, describe, marshal).0 == Pass
    ensures var d' := DumpProductSpec(d, product, listEntities, describe, marshal).1;
            DumpProductSpec(d', product, listEntities, describe, marshal) == (Pass, d')
  {
    DumpProductWritesDescription(d, product, listEntities, describe, marshal);
  }

  /** dumpProduct as the Go code runs it: the type-resolution loop, then the
      description, then the skip-unchanged write. */
  method DumpProduct<F, D>(fs: FileSystem, product: string,
                           listEntities: string -> Result<Page, ApiError>,
                           describe: string -> Result<EntityDetails<F, D>, string>,
                           marshal: EntityDetails<F, D> -> Result<Bytes, string>)
    returns (r: Outcome)
    modifies fs
    ensures (r, fs.State()) == DumpProductSpec(old(fs.State()), product, listEntities, describe, marshal)
  {
    var found := ResolveProductType(product, listEntities);
    if found.Failure? {
      return Fail(found.error);
    }
    var details := describe(found.value.entityId);
    if details.Failure? {
      return Fail(External(details.error));
    }
    var withoutVersions := details.value.(versions := []);
    var data := marshal(withoutVersions);
    if data.Failure? {
      return Fail(External(data.error));
    }
    var w := fs.WriteIfChanged(DescriptionFile(product), data.value);
    r := if w.Failed? then Fail(w.error) else Pass;
  }
}
