/** The version transcoder of version.go: the lowercase-keyed local version record
    (read from `data/<product>/versions/<title>.yaml`) and the PascalCase
    `AddDeliveryOptions` payload that `convertToDst` builds from it. */
module Transcoder {

  // ---- The local record (YAMLVersionData and its parts) ----

  datatype ServicesCompatibility = ServicesCompatibility(awsServices: seq<string>)

  datatype Instructions = Instructions(usage: string)

  datatype SrcDeploymentResource = SrcDeploymentResource(text: string, url: string)

  datatype Recommendations = Recommendations(deploymentResources: seq<SrcDeploymentResource>)

  datatype SrcSource = SrcSource(
    kind: string,
    id: string,
    images: seq<string>,
    compatibility: ServicesCompatibility)

  datatype SrcDeliveryOption = SrcDeliveryOption(
    id: string,
    kind: string,
    sourceId: string,
    title: string,
    shortDescription: string,
    isRecommended: bool,
    compatibility: ServicesCompatibility,
    instructions: Instructions,
    recommendations: Recommendations,
    visibility: string)

  /** The creation date, a time.Time, is kept as an opaque instant: the transform
      never reads it. */
  datatype YamlVersionData = YamlVersionData(
    id: string,
    releaseNotes: string,
    upgradeInstructions: string,
    versionTitle: string,
    creationDate: int,
    sources: seq<SrcSource>,
    deliveryOptions: seq<SrcDeliveryOption>)

  // ---- The payload (DstVersionData and its parts) ----

  datatype VersionInfo = VersionInfo(releaseNotes: string, versionTitle: string)

  datatype DstDeploymentResource = DstDeploymentResource(name: string, url: string)

  datatype EcrDeliveryOptionDetails = EcrDeliveryOptionDetails(
    deploymentResources: seq<DstDeploymentResource>,
    compatibleServices: seq<string>,
    containerImages: seq<string>,
    description: string,
    usageInstructions: string)

  datatype Details = Details(ecrDeliveryOptionDetails: EcrDeliveryOptionDetails)

  datatype DstDeliveryOption = DstDeliveryOption(details: Details, deliveryOptionTitle: string)

  datatype DstVersionData = DstVersionData(version: VersionInfo, deliveryOptions: seq<DstDeliveryOption>)

  // ---- The transform ----

  /** convertToDst reads `Sources[0]` once per delivery option, so it needs a source
      exactly when there is a delivery option; otherwise Go panics with an index error. */
  predicate CanConvert(src: YamlVersionData)
  {
    |src.deliveryOptions| > 0 ==> |src.sources| > 0
  }

  /** The field correspondence the transcoder promises between one local delivery
      option and the payload entry built from it, given the images of the first source. */
  predicate Transcoded(o: SrcDeliveryOption, images: seq<string>, d: DstDeliveryOption)
  {
    var e := d.details.ecrDeliveryOptionDetails;
    var rs := o.recommendations.deploymentResources;
    && d.deliveryOptionTitle == o.title
    && e.description == o.shortDescription
    && e.usageInstructions == o.instructions.usage
    && e.compatibleServices == o.compatibility.awsServices
    && e.containerImages == images
    && |e.deploymentResources| == |rs|
    && forall j :: 0 <= j < |rs| ==>
         e.deploymentResources[j].name == rs[j].text && e.deploymentResources[j].url == rs[j].url
  }

  /** The inner loop: one payload resource appended per recommended deployment resource. */
  function ConvertResources(rs: seq<SrcDeploymentResource>): (out: seq<DstDeploymentResource>)
    ensures |out| == |rs|
    ensures forall j :: 0 <= j < |rs| ==> out[j].name == rs[j].text && out[j].url == rs[j].url
  {
    if rs == [] then []
    else
      var last := rs[|rs| - 1];
      ConvertResources(rs[..|rs| - 1]) + [DstDeploymentResource(last.text, last.url)]
  }

  function ConvertOption(o: SrcDeliveryOption, images: seq<string>): DstDeliveryOption
  {
    var e := EcrDeliveryOptionDetails(
      ConvertResources(o.recommendations.deploymentResources),
      o.compatibility.awsServices,
      images,
      o.shortDescription,
      o.instructions.usage);
    DstDeliveryOption(Details(e), o.title)
  }

  /** The outer loop: one payload delivery option appended per local delivery option. */
  function ConvertOptions(os: seq<SrcDeliveryOption>, images: seq<string>): (out: seq<DstDeliveryOption>)
    ensures |out| == |os|
    ensures forall i :: 0 <= i < |os| ==> Transcoded(os[i], images, out[i])
  {
    if os == [] then []
    else ConvertOptions(os[..|os| - 1], images) + [ConvertOption(os[|os| - 1], images)]
  }

  /** YAMLVersionData.convertToDst. */
  function ConvertToDst(src: YamlVersionData): (dst: DstVersionData)
    requires CanConvert(src)
    ensures dst.version.releaseNotes == src.releaseNotes
    ensures dst.version.versionTitle == src.versionTitle
    ensures |dst.deliveryOptions| == |src.deliveryOptions|
    ensures forall i :: 0 <= i < |src.deliveryOptions| ==>
              Transcoded(src.deliveryOptions[i], src.sources[0].images, dst.deliveryOptions[i])
  {
    var images := if |src.deliveryOptions| > 0 then src.sources[0].images else [];
    DstVersionData(
      VersionInfo(src.releaseNotes, src.versionTitle),
      ConvertOptions(src.deliveryOptions, images))
  }

  // ---- What the transform keeps and what it drops ----

  /** The part of a local option that reaches the payload: id, type, source id,
      the recommended flag and visibility are blanked. */
  function KeptOption(o: SrcDeliveryOption): SrcDeliveryOption
  {
    SrcDeliveryOption("", "", "", o.title, o.shortDescription, false,
                      o.compatibility, o.instructions, o.recommendations, "")
  }

  /** The part of a local record that reaches the payload: its id, upgrade
      instructions, creation date, every source but the images of the first (and
      that one too when there is no delivery option) and the dropped option fields
      are blanked. */
  function Kept(src: YamlVersionData): YamlVersionData
    requires CanConvert(src)
  {
    var os := src.deliveryOptions;
    YamlVersionData(
      "", src.releaseNotes, "", src.versionTitle, 0,
      if |os| > 0 then [SrcSource("", "", src.sources[0].images, ServicesCompatibility([]))] else [],
      seq(|os|, i requires 0 <= i < |os| => KeptOption(os[i])))
  }

  /** Reads the kept part of a local record back from a payload. */
  function Recover(dst: DstVersionData): YamlVersionData
  {
    var ds := dst.deliveryOptions;
    YamlVersionData(
      "", dst.version.releaseNotes, "", dst.version.versionTitle, 0,
      if |ds| > 0
      then [SrcSource("", "", ds[0].details.ecrDeliveryOptionDetails.containerImages, ServicesCompatibility([]))]
      else [],
      seq(|ds|, i requires 0 <= i < |ds| => RecoverOption(ds[i])))
  }

  function RecoverOption(d: DstDeliveryOption): SrcDeliveryOption
  {
    var e := d.details.ecrDeliveryOptionDetails;
    var rs := e.deploymentResources;
    SrcDeliveryOption(
      "", "", "", d.deliveryOptionTitle, e.description, false,
      ServicesCompatibility(e.compatibleServices),
      Instructions(e.usageInstructions),
      Recommendations(seq(|rs|, j requires 0 <= j < |rs| => SrcDeploymentResource(rs[j].name, rs[j].url))),
      "")
  }

  lemma RecoverTranscoded(o: SrcDeliveryOption, images: seq<string>, d: DstDeliveryOption)
    requires Transcoded(o, images, d)
    ensures RecoverOption(d) == KeptOption(o)
  {
    var rs := o.recommendations.deploymentResources;
    var back := RecoverOption(d).recommendations.deploymentResources;
    assert back == rs by {
      forall j | 0 <= j < |rs| ensures back[j] == rs[j] {
      }
    }
  }

  /** Round trip: the payload determines the kept part of the local record. */
  lemma RecoverAfterConvert(src: YamlVersionData)
    requires CanConvert(src)
    ensures Recover(ConvertToDst(src)) == Kept(src)
  {
    var dst := ConvertToDst(src);
    var os := src.deliveryOptions;
    var back := Recover(dst).deliveryOptions;
    assert back == Kept(src).deliveryOptions by {
      forall i | 0 <= i < |os| ensures back[i] == KeptOption(os[i]) {
        RecoverTranscoded(os[i], src.sources[0].images, dst.deliveryOptions[i]);
      }
    }
  }

  /** Two payload entries transcoded from options with the same kept part are equal. */
  lemma TranscodedUnique(o1: SrcDeliveryOption, o2: SrcDeliveryOption, images: seq<string>,
                         d1: DstDeliveryOption, d2: DstDeliveryOption)
    requires Transcoded(o1, images, d1) && Transcoded(o2, images, d2)
    requires KeptOption(o1) == KeptOption(o2)
    ensures d1 == d2
  {
    var e1, e2 := d1.details.ecrDeliveryOptionDetails, d2.details.ecrDeliveryOptionDetails;
    assert e1.deploymentResources == e2.deploymentResources by {
      forall j | 0 <= j < |e1.deploymentResources|
        ensures e1.deploymentResources[j] == e2.deploymentResources[j]
      {
      }
    }
  }

  /** The payload depends on nothing but the kept part of the local record. */
  lemma ConvertIgnoresDropped(a: YamlVersionData, b: YamlVersionData)
    requires CanConvert(a) && CanConvert(b)
    requires Kept(a) == Kept(b)
    ensures ConvertToDst(a) == ConvertToDst(b)
  {
    var da, db := ConvertToDst(a), ConvertToDst(b);
    assert |a.deliveryOptions| == |Kept(a).deliveryOptions| == |b.deliveryOptions|;
    if |a.deliveryOptions| > 0 {
      assert Kept(a).sources[0].images == Kept(b).sources[0].images;
    }
    assert da.deliveryOptions == db.deliveryOptions by {
      forall i | 0 <= i < |a.deliveryOptions|
        ensures da.deliveryOptions[i] == db.deliveryOptions[i]
      {
        assert Kept(a).deliveryOptions[i] == Kept(b).deliveryOptions[i];
        TranscodedUnique(a.deliveryOptions[i], b.deliveryOptions[i], a.sources[0].images,
                         da.deliveryOptions[i], db.deliveryOptions[i]);
      }
    }
  }

  /** Exactly the kept fields reach the payload: two local records give the same
      payload if and only if they agree on every kept field. */
  lemma ConvertDropsExactly(a: YamlVersionData, b: YamlVersionData)
    requires CanConvert(a) && CanConvert(b)
    ensures ConvertToDst(a) == ConvertToDst(b) <==> Kept(a) == Kept(b)
  {
    RecoverAfterConvert(a);
    RecoverAfterConvert(b);
    if Kept(a) == Kept(b) {
      ConvertIgnoresDropped(a, b);
    }
  }

  /** With no delivery option the payload carries only the version fields, whatever the sources. */
  lemma ConvertWithoutOptions(src: YamlVersionData)
    requires src.deliveryOptions == []
    ensures CanConvert(src)
    ensures ConvertToDst(src) == DstVersionData(VersionInfo(src.releaseNotes, src.versionTitle), [])
  {
  }
}
