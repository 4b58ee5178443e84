/** The upload and retrieval handlers (controllers/imageController.js): the multer file filter,
    the mapping of the analyser's output into feature and classification rows, the
    partial-failure policy of the upload, and the joins served back. */
module ImageController {

  import opened Tables
  import opened JsValues
  import opened Text
  import opened FeatureModel
  import opened ImageStores

  // ---------------------------------------------------------------------------
  // File filter

  datatype FilterResult = Accepted | Rejected(message: string)

  const NotAnImage := "Not an image! Please upload only images (including .bmp)."

  /** Position of the last `c` in `s`. */
  function LastIndexOf(s: string, c: char): (r: Option<nat>)
    ensures r.Some? ==> r.value < |s| && s[r.value] == c && c !in s[r.value + 1..]
    ensures r.None? <==> c !in s
  {
    if |s| == 0 then None
    else
      assert s == s[..|s| - 1] + [s[|s| - 1]];
      if s[|s| - 1] == c then Some(|s| - 1)
      else match LastIndexOf(s[..|s| - 1], c)
        case None => None
        case Some(i) =>
          assert s[i + 1..] == s[..|s| - 1][i + 1..] + [s[|s| - 1]];
          Some(i)
  }

  function StripTrailingSlashes(s: string): (r: string)
    ensures |r| <= |s| && r == s[..|r|]
    ensures r == [] || r[|r| - 1] != '/'
  {
    if |s| > 0 && s[|s| - 1] == '/' then StripTrailingSlashes(s[..|s| - 1]) else s
  }

  /** The last component of a path without trailing slashes: everything after its last `/`. */
  function BaseName(p: string): (r: string)
    ensures '/' !in r && IsSuffix(r, p)
  {
    match LastIndexOf(p, '/') case None => p case Some(i) => p[i + 1..]
  }

  /** Node's `path.extname` (POSIX): from the last `.` of the last path component to its end;
      empty when the component has no dot, starts with its only dot, or is `..`. */
  function ExtName(path: string): (r: string)
    ensures r == [] || (r[0] == '.' && '.' !in r[1..] && '/' !in r)
    ensures IsSuffix(r, StripTrailingSlashes(path))
    ensures r == [] <==> NoExtension(BaseName(StripTrailingSlashes(path)))
    ensures r != [] ==> IsSuffix(r, BaseName(StripTrailingSlashes(path)))
  {
    var p := StripTrailingSlashes(path);
    var base := BaseName(p);
    var r := Extension(base);
    SuffixTrans(r, base, p);
    r
  }

  /** A path component without an extension: it has no dot, its only dot is its first
      character (`.bashrc`), or it is `..`. */
  predicate NoExtension(base: string) {
    '.' !in base || (base[0] == '.' && '.' !in base[1..]) || base == ".."
  }

  /** The extension of one path component: empty exactly when the component has none, and
      otherwise the suffix from its last dot. */
  function Extension(base: string): (r: string)
    requires '/' !in base
    ensures r == [] || (r[0] == '.' && '.' !in r[1..] && '/' !in r)
    ensures IsSuffix(r, base)
    ensures r == [] <==> NoExtension(base)
  {
    match LastIndexOf(base, '.')
    case None => ""
    case Some(d) => if d == 0 || base == ".." then "" else base[d..]
  }

  /** Only the last `c` of `s` has no `c` after it. */
  lemma LastIndexOfIs(s: string, c: char, k: nat)
    requires k < |s| && s[k] == c && c !in s[k + 1..]
    ensures LastIndexOf(s, c) == Some(k)
  {
  }

  /** The last component of `stem.e`, for a dot- and slash-free `e` and a stem that does not end
      in a slash, is a non-empty part of the stem followed by `.e`. */
  lemma BaseNameOfDottedName(stem: string, e: string)
    requires stem != "" && stem[|stem| - 1] != '/' && '/' !in e
    ensures var b := BaseName(stem + "." + e); |b| > |e| + 1 && IsSuffix("." + e, b)
  {
    var name := stem + "." + e;
    match LastIndexOf(stem, '/') {
      case None =>
        assert '/' !in name;
      case Some(k) =>
        assert name[k + 1..] == stem[k + 1..] + "." + e;
        LastIndexOfIs(name, '/', k);
    }
  }

  /** A name that ends in `.e`, with `e` non-empty and free of dots and slashes and a non-empty
      part before the dot in its last component, has the extension `.e`. */
  lemma ExtNameOfDottedName(stem: string, e: string)
    requires stem != "" && stem[|stem| - 1] != '/'
    requires e != "" && '.' !in e && '/' !in e
    ensures ExtName(stem + "." + e) == "." + e
  {
    var name := stem + "." + e;
    assert name[|name| - 1] == e[|e| - 1];
    assert StripTrailingSlashes(name) == name;
    BaseNameOfDottedName(stem, e);
    var b := BaseName(name);
    LastIndexOfIs(b, '.', |b| - |e| - 1);
  }

  /** A name without a dot has no extension, wherever its slashes are. */
  lemma ExtNameOfDotless(path: string)
    requires '.' !in path
    ensures ExtName(path) == ""
  {
    var p := StripTrailingSlashes(path);
    var b := BaseName(p);
    assert forall k :: 0 <= k < |b| ==> b[k] == path[|p| - |b| + k];
  }

  /** A name whose only dot is its first character, such as `.bashrc`, has no extension. */
  lemma ExtNameOfHiddenName(e: string)
    requires '.' !in e && '/' !in e
    ensures ExtName("." + e) == ""
  {
    var name := "." + e;
    assert name[|name| - 1] != '/';
    assert '/' !in name && name[1..] == e;
  }

  /** `..` has no extension. */
  lemma ExtNameOfParent()
    ensures ExtName("..") == ""
  {
    assert ".."[1] == '.';
    assert '/' !in "..";
  }

  /** A trailing dot is the whole extension: `a.` gives `.`. */
  lemma ExtNameOfTrailingDot(stem: string)
    requires stem != "" && '.' !in stem && '/' !in stem
    ensures ExtName(stem + ".") == "."
  {
    var name := stem + ".";
    assert name[|name| - 1] == '.';
    assert StripTrailingSlashes(name) == name;
    assert '/' !in name;
    assert BaseName(name) == name;
    LastIndexOfIs(name, '.', |stem|);
    assert name != ".." by { assert name[0] == stem[0]; }
    assert name[|stem|..] == ".";
  }

  /** `fileFilter`: accepts any `image/` mimetype or a `.bmp` extension in any case. The explicit
      `image/bmp` test in the source is subsumed by the prefix test. */
  function FileFilter(mimetype: string, originalName: string): (r: FilterResult)
    ensures r.Accepted? <==> StartsWith(mimetype, "image/") || Lower(ExtName(originalName)) == ".bmp"
    ensures r.Rejected? ==> r.message == NotAnImage
  {
    if StartsWith(mimetype, "image/") || mimetype == "image/bmp" || Lower(ExtName(originalName)) == ".bmp"
    then Accepted
    else Rejected(NotAnImage)
  }

  /** Whatever the mimetype, a name whose extension is `bmp` in any letter case is accepted. */
  lemma BmpNameAccepted(mimetype: string, stem: string, e: string)
    requires stem != "" && stem[|stem| - 1] != '/'
    requires '.' !in e && '/' !in e && Lower(e) == "bmp"
    ensures FileFilter(mimetype, stem + "." + e).Accepted?
  {
    ExtNameOfDottedName(stem, e);
    LowerDotted(e);
  }

  lemma LowerDotted(e: string)
    requires Lower(e) == "bmp"
    ensures Lower("." + e) == ".bmp"
  {
    LowerAppend(".", e);
    assert Lower(".") == ".";
  }

  // ---------------------------------------------------------------------------
  // Classification label and score

  /** The label derived from the top prediction: melanoma when its code is `mel` or its name,
      lower-cased, contains `melanoma`; otherwise abnormal below 70 percent confidence and normal
      from 70 on. Reading a property of a null prediction, or lower-casing a name that is not a
      string, throws. */
  function LabelOf(top: JsValue): (r: Completion<Label>)
    ensures r.Throw? <==>
      top.IsNullish() || (Prop(top, "class_code") != Str("mel") && !Prop(top, "class_name").Str?)
    ensures r == Ok(Melanoma) <==>
      && !top.IsNullish()
      && (Prop(top, "class_code") == Str("mel") ||
          (Prop(top, "class_name").Str? && Contains(Lower(Prop(top, "class_name").s), "melanoma")))
    ensures r == Ok(Abnormal) ==> LessThan(Prop(top, "confidence_percent"), 70.0)
    ensures r == Ok(Normal) ==> !LessThan(Prop(top, "confidence_percent"), 70.0)
  {
    if top.IsNullish() then Throw(TypeError)
    else if Prop(top, "class_code") == Str("mel") then Ok(Melanoma)
    else
      var name := Prop(top, "class_name");
      if !name.Str? then Throw(TypeError)
      else if Contains(Lower(name.s), "melanoma") then Ok(Melanoma)
      else if LessThan(Prop(top, "confidence_percent"), 70.0) then Ok(Abnormal)
      else Ok(Normal)
  }

  /** The `mel` code wins whatever the confidence and the name. */
  lemma MelanomaByCode(top: JsValue)
    requires !top.IsNullish() && Prop(top, "class_code") == Str("mel")
    ensures LabelOf(top) == Ok(Melanoma)
  {
  }

  /** A name containing `melanoma` in any letter case wins whatever the confidence. */
  lemma MelanomaByName(top: JsValue, name: string)
    requires !top.IsNullish() && Prop(top, "class_name") == Str(name)
    requires Contains(Lower(name), "melanoma")
    ensures LabelOf(top) == Ok(Melanoma)
  {
  }

  /** Without a melanoma match, the label is abnormal exactly when the confidence is below 70. */
  lemma ConfidenceThreshold(top: JsValue, name: string, c: real)
    requires !top.IsNullish() && Prop(top, "class_code") != Str("mel")
    requires Prop(top, "class_name") == Str(name) && !Contains(Lower(name), "melanoma")
    requires Prop(top, "confidence_percent") == Num(c)
    ensures LabelOf(top) == Ok(Abnormal) <==> c < 70.0
    ensures LabelOf(top) == Ok(Normal) <==> c >= 70.0
  {
  }

  /** A missing confidence compares as NaN, so `< 70` is false and the label is normal. */
  lemma MissingConfidenceIsNormal(top: JsValue, name: string)
    requires !top.IsNullish() && Prop(top, "class_code") != Str("mel")
    requires Prop(top, "class_name") == Str(name) && !Contains(Lower(name), "melanoma")
    requires Prop(top, "confidence_percent") == Undefined
    ensures LabelOf(top) == Ok(Normal)
  {
  }

  /** Past the code test, a name that is not a string makes `toLowerCase` throw. */
  lemma NonStringNameThrows(top: JsValue)
    requires !top.IsNullish() && Prop(top, "class_code") != Str("mel")
    requires !Prop(top, "class_name").Str?
    ensures LabelOf(top).Throw?
  {
  }

  /** `confidence_percent || (probability * 100)`. */
  function ConfidenceScore(top: JsValue): (r: JsValue)
    requires !top.IsNullish()
    ensures Truthy(Prop(top, "confidence_percent")) ==> r == Prop(top, "confidence_percent")
    ensures !Truthy(Prop(top, "confidence_percent")) ==> r == Times(Prop(top, "probability"), 100.0) && (r.Num? || r.NaN?)
  {
    Or(Prop(top, "confidence_percent"), Times(Prop(top, "probability"), 100.0))
  }

  /** A score taken from a percentage in (0, 100], or from a probability in [0, 1] when the
      percentage is falsy, is a number in [0, 100]. */
  lemma ScoreIsPercent(top: JsValue)
    requires !top.IsNullish()
    requires var c := Prop(top, "confidence_percent"); var p := Prop(top, "probability");
      (c.Num? && 0.0 < c.n <= 100.0) || (!Truthy(c) && p.Num? && 0.0 <= p.n <= 1.0)
    ensures var s := ConfidenceScore(top); s.Num? && 0.0 <= s.n <= 100.0
  {
  }

  /** The list of predictions is consulted only when `classification.classification` is truthy
      with a positive length. */
  predicate HasPredictions(classification: JsValue)
    ensures HasPredictions(classification) ==>
      !classification.IsNullish() && !Prop(classification, "classification").IsNullish()
    ensures classification.Obj? && "classification" in classification.fields &&
            classification.fields["classification"].Arr? ==>
      (HasPredictions(classification) <==> |classification.fields["classification"].items| > 0)
  {
    Truthy(classification) &&
    var list := Prop(classification, "classification");
    Truthy(list) && GreaterThan(Prop(list, "length"), 0.0)
  }

  /** What the upload handler tries to insert into the classifications table: nothing when
      there are no predictions; otherwise the label and the score of element 0, or the error
      thrown while computing them. */
  function ClassificationToSave(classification: JsValue): (r: Option<Completion<(Label, JsValue)>>)
    ensures r.None? <==> !HasPredictions(classification)
    ensures r.Some? ==>
      var top := Index0(Prop(classification, "classification"));
      (r.value.Ok? <==> LabelOf(top).Ok?) &&
      (r.value.Ok? ==> r.value.value == (LabelOf(top).value, ConfidenceScore(top)))
  {
    if !HasPredictions(classification) then None
    else
      var top := Index0(Prop(classification, "classification"));
      match LabelOf(top)
      case Throw(e) => Some(Throw(e))
      case Ok(result) => Some(Ok((result, ConfidenceScore(top))))
  }

  /** Only element 0 of a non-empty prediction list is consulted. */
  lemma OnlyTopPredictionCounts(m1: map<string, JsValue>, m2: map<string, JsValue>,
                                top: JsValue, rest1: seq<JsValue>, rest2: seq<JsValue>)
    requires "classification" in m1 && m1["classification"] == Arr([top] + rest1)
    requires "classification" in m2 && m2["classification"] == Arr([top] + rest2)
    ensures ClassificationToSave(Obj(m1)) == ClassificationToSave(Obj(m2))
  {
    assert HasPredictions(Obj(m1)) && HasPredictions(Obj(m2));
  }

  /** Matched by its code, a melanoma prediction at 60 percent gets the melanoma label. */
  lemma MelanomaExample()
    ensures ClassificationToSave(Obj(map["classification" := Arr([Obj(map[
      "class_name" := Str("Melanoma"), "class_code" := Str("mel"), "confidence_percent" := Num(60.0)])])]))
      == Some(Ok((Melanoma, Num(60.0))))
  {
    var top := Obj(map["class_name" := Str("Melanoma"), "class_code" := Str("mel"), "confidence_percent" := Num(60.0)]);
    assert Prop(top, "class_code") == Str("mel");
  }

  // ---------------------------------------------------------------------------
  // Features

  /** The `featureData` object built from the analyser's features: the same defaulting policy
      as the feature table's. */
  function FeatureData(features: JsValue): (r: JsValue)
    requires Truthy(features)
    ensures r.Obj? && Normalize(r) == Normalize(features)
  {
    NormalizeTwice(features);
    AsObject(Normalize(features))
  }

  /** What the upload handler inserts into the feature table: nothing for falsy features,
      otherwise the features normalised once (normalising again in the table changes nothing). */
  function FeatureRecordToSave(features: JsValue): (r: Option<FeatureRecord>)
    ensures r.Some? <==> Truthy(features)
    ensures r.Some? ==> r.value == Normalize(features)
  {
    if Truthy(features) then Some(Normalize(FeatureData(features)))
    else None
  }

  // ---------------------------------------------------------------------------
  // Upload

  /** The file multer stored for the request; `path` is its path on disk. */
  datatype UploadedFile = UploadedFile(path: string)

  /** How one run of the analysis script ended: the process failed, it wrote no output file,
      reading or parsing the file failed, or it parsed to `data`. */
  datatype AnalyserRun = ExecFailed | OutputMissing | ReadFailed | Parsed(data: JsValue)

  /** Which of the handler's database writes and file removals throw. */
  datatype Faults = Faults(imageInsert: bool, featureInsert: bool, classificationInsert: bool, unlink: bool)

  /** The `features` and `classification` members of the parsed output, or the failure that
      sends the handler to its extraction catch (a null document throws on the first read). */
  datatype Extraction = ExtractionFailed | Extracted(features: JsValue, classification: JsValue)

  function Extract(run: AnalyserRun): (r: Extraction)
    ensures r.Extracted? <==> run.Parsed? && !run.data.IsNullish()
    ensures r.Extracted? ==>
      r.features == Prop(run.data, "features") && r.classification == Prop(run.data, "classification")
  {
    match run
    case Parsed(data) =>
      if data.IsNullish() then ExtractionFailed
      else Extracted(Prop(data, "features"), Prop(data, "classification"))
    case _ => ExtractionFailed
  }

  const NoImage := "Please upload an image"
  const UploadFailedMessage := "Failed to upload image"
  const ProcessingFailed := "Feature extraction failed, but image was saved"
  const UploadSucceeded := "Image uploaded, features extracted, and classified successfully"

  datatype UploadResponse =
    | NoFileGiven(message: string)
    | UploadFailed(message: string)
    | UploadCreated(success: bool, imageId: nat, imagePath: string, features: JsValue,
                    classification: JsValue, processingError: Option<string>, message: string)
  {
    function Status(): nat {
      match this
      case NoFileGiven(_) => 400
      case UploadFailed(_) => 500
      case UploadCreated(_, _, _, _, _, _, _) => 201
    }
  }

  /** `req.file.path.replace(/\\/g, '/')`. */
  function StoredPath(diskPath: string): (r: string)
    ensures |r| == |diskPath| && '\\' !in r
    ensures forall i :: 0 <= i < |r| ==> r[i] == if diskPath[i] == '\\' then '/' else diskPath[i]
  {
    ReplaceAllChar(diskPath, '\\', '/')
  }

  /** The 201 body once the image row exists. */
  function CreatedResponse(imageId: nat, imagePath: string, run: AnalyserRun, unlinkFails: bool): (r: UploadResponse)
    ensures r.UploadCreated? && r.Status() == 201 && r.success
    ensures r.imageId == imageId && r.imagePath == "/" + imagePath
    ensures Extract(run).Extracted? ==>
      r.features == Extract(run).features && r.classification == Extract(run).classification
    ensures Extract(run).ExtractionFailed? ==> r.features == Null && r.classification == Null
  {
    var ex := Extract(run);
    var err := if ex.ExtractionFailed? || unlinkFails then Some(ProcessingFailed) else None;
    UploadCreated(true, imageId, "/" + imagePath,
                  if ex.Extracted? then ex.features else Null,
                  if ex.Extracted? then ex.classification else Null,
                  err, if err.Some? then err.value else UploadSucceeded)
  }

  /** Any analysis failure is a soft error on a response that is still a 201 success with the
      image id; the message repeats the error and the analysis members stay null. */
  lemma AnalysisFailureIsSoft(imageId: nat, imagePath: string, run: AnalyserRun, unlinkFails: bool)
    requires run.ExecFailed? || run.OutputMissing? || run.ReadFailed? || (run.Parsed? && run.data.IsNullish())
    ensures var r := CreatedResponse(imageId, imagePath, run, unlinkFails);
      && r.Status() == 201 && r.success && r.imageId == imageId
      && r.processingError == Some(ProcessingFailed) && r.message == ProcessingFailed
      && r.features == Null && r.classification == Null
  {
  }

  /** `processingError` is set exactly when the analysis failed or the temporary file could not
      be removed; when it is set the message repeats it, otherwise the message reports success. */
  lemma ProcessingErrorExactly(imageId: nat, imagePath: string, run: AnalyserRun, unlinkFails: bool)
    ensures var r := CreatedResponse(imageId, imagePath, run, unlinkFails);
      && (r.processingError.Some? <==> Extract(run).ExtractionFailed? || unlinkFails)
      && (r.processingError.Some? ==> r.message == r.processingError.value)
      && (r.processingError.None? ==> r.message == UploadSucceeded)
  {
  }

  /** The feature row the handler inserts, if any. */
  function FeatureRowsSaved(imageId: nat, ex: Extraction, insertFails: bool, nextId: nat): (r: seq<FeatureRow>)
    ensures |r| <= 1 && forall k :: 0 <= k < |r| ==> r[k].imageId == imageId
  {
    if ex.Extracted? && Truthy(ex.features) && !insertFails
    then [FeatureRow(nextId, imageId, FeatureRecordToSave(ex.features).value)]
    else []
  }

  /** The classification row the handler inserts, if any. */
  function ClassificationRowsSaved(imageId: nat, ex: Extraction, insertFails: bool, nextId: nat): (r: seq<ClassificationRow>)
    ensures |r| <= 1 && forall k :: 0 <= k < |r| ==> r[k].imageId == imageId
  {
    if ex.Extracted? && !insertFails then
      match ClassificationToSave(ex.classification)
      case Some(Ok((result, score))) => [ClassificationRow(nextId, imageId, result, score)]
      case _ => []
    else []
  }

  /** Every feature and classification row refers to an image that exists (the foreign keys). */
  ghost predicate Linked(images: ImageStore, features: FeatureTable, classifications: ClassificationStore)
    reads images, features, classifications
  {
    && (forall i :: 0 <= i < |features.rows| ==> features.rows[i].imageId < images.nextId)
    && (forall i :: 0 <= i < |classifications.rows| ==> classifications.rows[i].imageId < images.nextId)
  }

  /** `uploadImage`. `user` is the id the auth middleware put in `req.user`, or None when no such
      middleware ran and `req.user` is undefined. Without a file: 400 and nothing written. With a
      file, reading `req.user.id` without a user throws, and so does a failing image insert: 500
      and nothing written. Otherwise the image row is inserted and Ingest does the rest. */
  method UploadImage(images: ImageStore, featureTable: FeatureTable, classifications: ClassificationStore,
                     user: Option<nat>, file: Option<UploadedFile>, now: string, run: AnalyserRun, faults: Faults)
    returns (resp: UploadResponse)
    requires images.Valid() && featureTable.Valid() && classifications.Valid()
    requires Linked(images, featureTable, classifications)
    modifies images, featureTable, classifications
    ensures images.Valid() && featureTable.Valid() && classifications.Valid()
    ensures Linked(images, featureTable, classifications)
    ensures file.None? ==> resp == NoFileGiven(NoImage)
    ensures file.Some? && (user.None? || faults.imageInsert) ==> resp == UploadFailed(UploadFailedMessage)
    ensures file.None? || user.None? || faults.imageInsert ==>
      && images.rows == old(images.rows) && images.nextId == old(images.nextId)
      && featureTable.rows == old(featureTable.rows) && featureTable.nextId == old(featureTable.nextId)
      && classifications.rows == old(classifications.rows) && classifications.nextId == old(classifications.nextId)
    ensures file.Some? && user.Some? && !faults.imageInsert ==>
      var id := old(images.nextId);
      var path := StoredPath(file.value.path);
      var ex := Extract(run);
      var savedFeatures := FeatureRowsSaved(id, ex, faults.featureInsert, old(featureTable.nextId));
      var savedClassification := ClassificationRowsSaved(id, ex, faults.classificationInsert, old(classifications.nextId));
      && resp == CreatedResponse(id, path, run, faults.unlink)
      && images.rows == old(images.rows) + [ImageRow(id, user.value, path, now)]
      && images.nextId == id + 1
      && featureTable.rows == old(featureTable.rows) + savedFeatures
      && featureTable.nextId == old(featureTable.nextId) + |savedFeatures|
      && classifications.rows == old(classifications.rows) + savedClassification
      && classifications.nextId == old(classifications.nextId) + |savedClassification|
  {
    if file.None? {
      return NoFileGiven(NoImage);
    }
    if user.None? {
      return UploadFailed(UploadFailedMessage);
    }
    var userId := user.value;
    var imagePath := StoredPath(file.value.path);
    if faults.imageInsert {
      return UploadFailed(UploadFailedMessage);
    }
    resp := Ingest(images, featureTable, classifications, userId, imagePath, now, run, faults);
  }

  /** The rest of `uploadImage` once a file is present and its row can be inserted: the image row
      is inserted, the analyser runs, the feature row and the classification row are each inserted
      best-effort and independently of each other, and the response is the 201 body of
      CreatedResponse, which depends on neither insert. The new image's features and
      classification then read back as exactly what was saved. */
  method Ingest(images: ImageStore, featureTable: FeatureTable, classifications: ClassificationStore,
                userId: nat, imagePath: string, now: string, run: AnalyserRun, faults: Faults)
    returns (resp: UploadResponse)
    requires images.Valid() && featureTable.Valid() && classifications.Valid()
    requires Linked(images, featureTable, classifications)
    modifies images, featureTable, classifications
    ensures images.Valid() && featureTable.Valid() && classifications.Valid()
    ensures Linked(images, featureTable, classifications)
    ensures resp == CreatedResponse(old(images.nextId), imagePath, run, faults.unlink)
    ensures images.rows == old(images.rows) + [ImageRow(old(images.nextId), userId, imagePath, now)]
    ensures images.nextId == old(images.nextId) + 1
    ensures var saved := FeatureRowsSaved(old(images.nextId), Extract(run), faults.featureInsert, old(featureTable.nextId));
      featureTable.rows == old(featureTable.rows) + saved && featureTable.nextId == old(featureTable.nextId) + |saved|
    ensures var saved := ClassificationRowsSaved(old(images.nextId), Extract(run), faults.classificationInsert,
                                                 old(classifications.nextId));
      classifications.rows == old(classifications.rows) + saved &&
      classifications.nextId == old(classifications.nextId) + |saved|
    ensures images.FindById(old(images.nextId)) == Some(ImageRow(old(images.nextId), userId, imagePath, now))
    ensures var saved := FeatureRowsSaved(old(images.nextId), Extract(run), faults.featureInsert, old(featureTable.nextId));
      featureTable.FindByImageId(old(images.nextId)) == if saved == [] then None else Some(saved[0])
    ensures var saved := ClassificationRowsSaved(old(images.nextId), Extract(run), faults.classificationInsert,
                                                 old(classifications.nextId));
      classifications.FindByImageId(old(images.nextId)) == if saved == [] then None else Some(saved[0])
  {
    ghost var before := (images.rows, featureTable.rows, classifications.rows);
    assert forall j :: 0 <= j < |images.rows| ==> images.rows[j].id < images.nextId by {
      forall j | 0 <= j < |images.rows| ensures images.rows[j].id < images.nextId {
        assert images.Ids()[j] == images.rows[j].id;
      }
    }
    ghost var ex := Extract(run);
    ghost var savedFeatures := FeatureRowsSaved(images.nextId, ex, faults.featureInsert, featureTable.nextId);
    ghost var savedClassification :=
      ClassificationRowsSaved(images.nextId, ex, faults.classificationInsert, classifications.nextId);
    ghost var row := ImageRow(images.nextId, userId, imagePath, now);
    resp := StoreAndAnalyse(images, featureTable, classifications, userId, imagePath, now, run, faults);
    UploadReadsBack(images, featureTable, classifications, before.0, before.1, before.2,
                    row, savedFeatures, savedClassification);
  }

  /** The statements of Ingest: inserts the image row, runs ProcessImage on the new id, and
      builds the 201 body from the locals it answers. */
  method StoreAndAnalyse(images: ImageStore, featureTable: FeatureTable, classifications: ClassificationStore,
                         userId: nat, imagePath: string, now: string, run: AnalyserRun, faults: Faults)
    returns (resp: UploadResponse)
    requires images.Valid() && featureTable.Valid() && classifications.Valid()
    modifies images, featureTable, classifications
    ensures images.Valid() && featureTable.Valid() && classifications.Valid()
    ensures resp == CreatedResponse(old(images.nextId), imagePath, run, faults.unlink)
    ensures images.rows == old(images.rows) + [ImageRow(old(images.nextId), userId, imagePath, now)]
    ensures images.nextId == old(images.nextId) + 1
    ensures var saved := FeatureRowsSaved(old(images.nextId), Extract(run), faults.featureInsert, old(featureTable.nextId));
      featureTable.rows == old(featureTable.rows) + saved && featureTable.nextId == old(featureTable.nextId) + |saved|
    ensures var saved := ClassificationRowsSaved(old(images.nextId), Extract(run), faults.classificationInsert,
                                                 old(classifications.nextId));
      classifications.rows == old(classifications.rows) + saved &&
      classifications.nextId == old(classifications.nextId) + |saved|
  {
    var imageId := images.Create(userId, imagePath, now);
    var features, classification, processingError := ProcessImage(featureTable, classifications, imageId, run, faults);
    resp := UploadCreated(true, imageId, "/" + imagePath, features, classification, processingError,
                          if processingError.Some? then processingError.value else UploadSucceeded);
  }

  /** Every row that existed before an upload refers to an older image, so the rows the upload
      added are the ones read back for the new image, and the foreign keys still hold. */
  lemma UploadReadsBack(images: ImageStore, featureTable: FeatureTable, classifications: ClassificationStore,
                        oldImages: seq<ImageRow>, oldFeatures: seq<FeatureRow>, oldClassifications: seq<ClassificationRow>,
                        row: ImageRow, savedFeatures: seq<FeatureRow>, savedClassification: seq<ClassificationRow>)
    requires images.rows == oldImages + [row] && images.nextId == row.id + 1
    requires featureTable.rows == oldFeatures + savedFeatures
    requires classifications.rows == oldClassifications + savedClassification
    requires forall i :: 0 <= i < |oldImages| ==> oldImages[i].id < row.id
    requires forall i :: 0 <= i < |oldFeatures| ==> oldFeatures[i].imageId < row.id
    requires forall i :: 0 <= i < |oldClassifications| ==> oldClassifications[i].imageId < row.id
    requires |savedFeatures| <= 1 && forall k :: 0 <= k < |savedFeatures| ==> savedFeatures[k].imageId == row.id
    requires |savedClassification| <= 1 &&
             forall k :: 0 <= k < |savedClassification| ==> savedClassification[k].imageId == row.id
    ensures Linked(images, featureTable, classifications)
    ensures images.FindById(row.id) == Some(row)
    ensures featureTable.FindByImageId(row.id) == if savedFeatures == [] then None else Some(savedFeatures[0])
    ensures classifications.FindByImageId(row.id) ==
      if savedClassification == [] then None else Some(savedClassification[0])
  {
    PickNewImageRow(oldImages, row, images.FindById(row.id));
    PickNewRows(oldFeatures, savedFeatures, (f: FeatureRow) => f.imageId, row.id,
                featureTable.FindByImageId(row.id));
    PickNewRows(oldClassifications, savedClassification, (c: ClassificationRow) => c.imageId, row.id,
                classifications.FindByImageId(row.id));
  }

  /** The inner `try` of `uploadImage` once the image row `imageId` exists: runs the analysis,
      saves the feature row and the classification row, each in its own `try`, and answers the
      final values of the locals `features`, `classification` and `processingError`. */
  method ProcessImage(featureTable: FeatureTable, classifications: ClassificationStore,
                      imageId: nat, run: AnalyserRun, faults: Faults)
    returns (features: JsValue, classification: JsValue, processingError: Option<string>)
    requires featureTable.Valid() && classifications.Valid()
    modifies featureTable, classifications
    ensures featureTable.Valid() && classifications.Valid()
    ensures var ex := Extract(run);
      && features == (if ex.Extracted? then ex.features else Null)
      && classification == (if ex.Extracted? then ex.classification else Null)
      && processingError == (if ex.ExtractionFailed? || faults.unlink then Some(ProcessingFailed) else None)
    ensures var saved := FeatureRowsSaved(imageId, Extract(run), faults.featureInsert, old(featureTable.nextId));
      featureTable.rows == old(featureTable.rows) + saved && featureTable.nextId == old(featureTable.nextId) + |saved|
    ensures var saved := ClassificationRowsSaved(imageId, Extract(run), faults.classificationInsert,
                                                 old(classifications.nextId));
      classifications.rows == old(classifications.rows) + saved &&
      classifications.nextId == old(classifications.nextId) + |saved|
  {
    features := Null;
    classification := Null;
    processingError := None;

    match run {
      case Parsed(data) =>
        if data.IsNullish() {
          processingError := Some(ProcessingFailed);
        } else {
          features := Prop(data, "features");
          classification := Prop(data, "classification");
          var featureId := SaveFeatures(featureTable, imageId, features, faults.featureInsert);
          var classificationId := SaveClassification(classifications, imageId, classification, faults.classificationInsert);
          if faults.unlink {
            processingError := Some(ProcessingFailed);
          }
        }
      case _ =>
        processingError := Some(ProcessingFailed);
    }
  }

  /** The features `try` (imageController.js:116-141): a truthy features object is inserted, mapped by the
      defaulting policy; a falsy one or a failing insert writes nothing. */
  method SaveFeatures(featureTable: FeatureTable, imageId: nat, features: JsValue, insertFails: bool)
    returns (featureId: Option<nat>)
    requires featureTable.Valid()
    modifies featureTable
    ensures featureTable.Valid()
    ensures featureId.Some? <==> Truthy(features) && !insertFails
    ensures var saved := FeatureRowsSaved(imageId, Extracted(features, Null), insertFails, old(featureTable.nextId));
      featureTable.rows == old(featureTable.rows) + saved && featureTable.nextId == old(featureTable.nextId) + |saved|
  {
    featureId := None;
    if Truthy(features) && !insertFails {
      var id := featureTable.Create(imageId, FeatureData(features));
      NormalizeTwice(features);
      featureId := Some(id);
    }
  }

  /** The classification `try` (imageController.js:144-168): when there are predictions and the top one's
      label can be computed, one row with that label and score; otherwise nothing. */
  method SaveClassification(classifications: ClassificationStore, imageId: nat, classification: JsValue,
                            insertFails: bool) returns (classificationId: Option<nat>)
    requires classifications.Valid()
    modifies classifications
    ensures classifications.Valid()
    ensures classificationId.Some? <==> !insertFails && ClassificationToSave(classification).Some? &&
                                        ClassificationToSave(classification).value.Ok?
    ensures var saved := ClassificationRowsSaved(imageId, Extracted(Null, classification), insertFails,
                                                 old(classifications.nextId));
      classifications.rows == old(classifications.rows) + saved &&
      classifications.nextId == old(classifications.nextId) + |saved|
  {
    classificationId := None;
    if HasPredictions(classification) {
      var top := Index0(Prop(classification, "classification"));
      var derived := LabelOf(top);
      if derived.Ok? && !insertFails {
        var score := ConfidenceScore(top);
        var id := classifications.Create(imageId, derived.value, score);
        classificationId := Some(id);
      }
    }
  }

  lemma PickNewImageRow(before: seq<ImageRow>, row: ImageRow, r: Option<ImageRow>)
    requires forall i :: 0 <= i < |before| ==> before[i].id < row.id
    requires r.Some? ==> r.value in before + [row] && r.value.id == row.id
    requires r.None? <==> forall i :: 0 <= i < |before + [row]| ==> (before + [row])[i].id != row.id
    ensures r == Some(row)
  {
    assert (before + [row])[|before|] == row;
  }

  /** The rows an upload added are the only ones whose image `key` is the new image's, so they
      are what reads back; and every row still refers to an image below the advanced counter. */
  lemma PickNewRows<T>(before: seq<T>, saved: seq<T>, key: T -> nat, imageId: nat, r: Option<T>)
    requires forall i :: 0 <= i < |before| ==> key(before[i]) < imageId
    requires |saved| <= 1 && forall k :: 0 <= k < |saved| ==> key(saved[k]) == imageId
    requires r.Some? ==> r.value in before + saved && key(r.value) == imageId
    requires r.None? <==> forall i :: 0 <= i < |before + saved| ==> key((before + saved)[i]) != imageId
    ensures r == if saved == [] then None else Some(saved[0])
    ensures forall i :: 0 <= i < |before + saved| ==> key((before + saved)[i]) < imageId + 1
  {
    if saved != [] {
      assert (before + saved)[|before|] == saved[0];
    }
  }

  // ---------------------------------------------------------------------------
  // Retrieval

  /** `${req.protocol}://${req.get('host')}/${image.image_path}`. */
  function ImageUrl(protocol: string, host: string, imagePath: string): string {
    protocol + "://" + host + "/" + imagePath
  }

  datatype ImageWithUrl = ImageWithUrl(image: ImageRow, imageUrl: string)

  /** The `images.map` of `getUserImages`: every image kept, in order, with its URL added. */
  function WithImageUrls(images: seq<ImageRow>, protocol: string, host: string): (r: seq<ImageWithUrl>)
    ensures |r| == |images|
    ensures forall i :: 0 <= i < |r| ==> r[i].image == images[i] && r[i].imageUrl == ImageUrl(protocol, host, images[i].imagePath)
  {
    seq(|images|, i requires 0 <= i < |images| => ImageWithUrl(images[i], ImageUrl(protocol, host, images[i].imagePath)))
  }

  /** `getUserImages`: exactly the authenticated user's images, each with its URL, in the
      listing's newest-first order. */
  function GetUserImages(images: ImageStore, userId: nat, protocol: string, host: string): (r: seq<ImageWithUrl>)
    reads images
    ensures |r| == |images.FindByUserId(userId)|
    ensures forall i :: 0 <= i < |r| ==> r[i].image == images.FindByUserId(userId)[i]
    ensures forall x :: x in r ==>
      x.image in images.rows && x.image.userId == userId && x.imageUrl == ImageUrl(protocol, host, x.image.imagePath)
    ensures forall row :: row in images.rows && row.userId == userId ==>
      ImageWithUrl(row, ImageUrl(protocol, host, row.imagePath)) in r
  {
    var owned := images.FindByUserId(userId);
    var r := WithImageUrls(owned, protocol, host);
    assert forall row :: row in owned ==> exists i :: 0 <= i < |owned| && owned[i] == row;
    r
  }

  datatype ImageResponse =
    | ImageNotFound(message: string)
    | ImageFound(image: ImageRow, imageUrl: string, features: Option<FeatureRow>, classification: Option<ClassificationRow>)
  {
    function Status(): nat { if ImageNotFound? then 404 else 200 }
  }

  /** `getImageById`: 404 when there is no such image; otherwise the image with its URL, its
      feature row and its classification row, each absent (null) when there is none. */
  function GetImageById(images: ImageStore, featureTable: FeatureTable, classifications: ClassificationStore,
                        imageId: nat, protocol: string, host: string): (r: ImageResponse)
    reads images, featureTable, classifications
    ensures r.ImageNotFound? <==> forall i :: 0 <= i < |images.rows| ==> images.rows[i].id != imageId
    ensures r.ImageNotFound? ==> r.message == "Image not found"
    ensures r.ImageFound? ==>
      && r.image in images.rows && r.image.id == imageId
      && r.imageUrl == ImageUrl(protocol, host, r.image.imagePath)
      && (r.features.None? <==> forall i :: 0 <= i < |featureTable.rows| ==> featureTable.rows[i].imageId != imageId)
      && (r.features.Some? ==> r.features.value in featureTable.rows && r.features.value.imageId == imageId)
      && (r.classification.None? <==>
            forall i :: 0 <= i < |classifications.rows| ==> classifications.rows[i].imageId != imageId)
      && (r.classification.Some? ==>
            r.classification.value in classifications.rows && r.classification.value.imageId == imageId)
    ensures r.ImageFound? ==>
      && images.FindById(imageId) == Some(r.image)
      && r.features == featureTable.FindByImageId(imageId)
      && r.classification == classifications.FindByImageId(imageId)
  {
    match images.FindById(imageId)
    case None => ImageNotFound("Image not found")
    case Some(image) =>
      ImageFound(image, ImageUrl(protocol, host, image.imagePath),
                 featureTable.FindByImageId(imageId), classifications.FindByImageId(imageId))
  }
}
