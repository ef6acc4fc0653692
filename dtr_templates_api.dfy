/** The DTR templates route: listing, upload with type and size checks and
    a sanitised, timestamped file name, status updates and deletion. */
module DtrTemplatesApi {
  import opened Common
  import opened Text
  import opened DtrTemplateModel
  import opened Store

  /** The accepted MIME types. */
  const AllowedTypes: seq<string> := ["application/pdf", "image/jpeg", "image/png", "image/jpg"]

  /** 10 MiB, the largest accepted upload. */
  const MaxSize := 10 * 1024 * 1024

  const UploadDir := "/uploads/dtr-templates/"

  // ---------------------------------------------------------------------
  // GET

  predicate TemplateMatches(isActive: Option<string>, t: DtrTemplate) {
    isActive.None? || t.isActive == (isActive.value == "true")
  }

  predicate NewerOrSame(a: DtrTemplate, b: DtrTemplate) {
    a.createdAt >= b.createdAt
  }

  function ListTemplates(m: map<Id, DtrTemplate>, n: nat, isActive: Option<string>): seq<DtrTemplate> {
    Query(m, n, (t: DtrTemplate) => TemplateMatches(isActive, t), NewerOrSame)
  }

  /** Newest first, and exactly the templates with the requested status. */
  lemma {:induction false} ListTemplatesSpec(m: map<Id, DtrTemplate>, n: nat, isActive: Option<string>)
    ensures var r := ListTemplates(m, n, isActive);
            SortedBy(r, NewerOrSame) &&
            forall t :: t in r <==> (exists j :: j < n && j in m && m[j] == t) && TemplateMatches(isActive, t)
  {
    QuerySpec(m, n, (t: DtrTemplate) => TemplateMatches(isActive, t), NewerOrSame);
  }

  // ---------------------------------------------------------------------
  // POST

  /** The uploaded file: its name, MIME type and size in bytes. */
  datatype Upload = Upload(name: string, fileType: string, size: int)

  /** The characters `/[^a-zA-Z0-9.-]/` leaves alone. */
  predicate SafeChar(c: char) {
    'a' <= c <= 'z' || 'A' <= c <= 'Z' || '0' <= c <= '9' || c == '.' || c == '-'
  }

  /** `name.replace(/[^a-zA-Z0-9.-]/g, '_')`. */
  function Sanitize(s: string): (r: string)
    ensures |r| == |s|
    ensures forall i :: 0 <= i < |s| ==> (SafeChar(s[i]) ==> r[i] == s[i]) && (!SafeChar(s[i]) ==> r[i] == '_')
  {
    if s == [] then [] else [if SafeChar(s[0]) then s[0] else '_'] + Sanitize(s[1..])
  }

  /** A sanitised name holds only safe characters and underscores, so no
      path separator; sanitising twice changes nothing more; and a name is
      left as it is exactly when it already has only those characters. */
  lemma {:induction false} SanitizeSpec(s: string)
    ensures forall i :: 0 <= i < |Sanitize(s)| ==> SafeChar(Sanitize(s)[i]) || Sanitize(s)[i] == '_'
    ensures '/' !in Sanitize(s) && '\\' !in Sanitize(s)
    ensures Sanitize(Sanitize(s)) == Sanitize(s)
    ensures Sanitize(s) == s <==> forall i :: 0 <= i < |s| ==> SafeChar(s[i]) || s[i] == '_'
  {
    var r := Sanitize(s);
    assert Sanitize(r) == r;
    if forall i :: 0 <= i < |s| ==> SafeChar(s[i]) || s[i] == '_' {
      assert r == s;
    }
  }

  /** `${timestamp}_${originalName}`. */
  function FileName(timestamp: nat, name: string): string {
    NatText(timestamp) + "_" + Sanitize(name)
  }

  lemma DigitsHaveNoUnderscore(t: nat, i: int)
    requires 0 <= i < |NatText(t)|
    ensures NatText(t)[i] != '_'
  {
  }

  lemma CharOfPrefix(a: string, u: string, i: int)
    ensures 0 <= i < |a| ==> (a + u)[i] == a[i]
  {
  }

  /** Two uploads at different milliseconds never share a file name,
      whatever the files are called. */
  lemma {:induction false} FileNamesDiffer(t1: nat, t2: nat, name1: string, name2: string)
    requires t1 != t2
    ensures FileName(t1, name1) != FileName(t2, name2)
  {
    var a, b := NatText(t1), NatText(t2);
    var f1, f2 := FileName(t1, name1), FileName(t2, name2);
    if f1 == f2 {
      if |a| < |b| {
        DigitsHaveNoUnderscore(t2, |a|);
        CharOfPrefix(a + "_", Sanitize(name1), |a|);
        CharOfPrefix(b, "_", |a|);
        CharOfPrefix(b + "_", Sanitize(name2), |a|);
      } else if |b| < |a| {
        DigitsHaveNoUnderscore(t1, |b|);
        CharOfPrefix(b + "_", Sanitize(name2), |b|);
        CharOfPrefix(a, "_", |b|);
        CharOfPrefix(a + "_", Sanitize(name1), |b|);
      } else {
        assert a == f1[..|a|] && b == f2[..|b|];
        NatTextRoundTrip(t1);
        NatTextRoundTrip(t2);
      }
    }
  }

  /** The POST handler at time `now`: the required fields, the type, the
      size; then the file is written (not modelled) and the template created
      under id `n`. A file with an empty name fails the schema after the
      write. */
  function Uploaded(m: map<Id, DtrTemplate>, n: nat, file: Option<Upload>, templateName: Option<string>,
                   description: Option<string>, now: nat): Outcome<DtrTemplate, DtrTemplate>
  {
    if file.None? || !Truthy(templateName) then Outcome(Fail(400, "File and template name are required"), m, n)
    else if file.value.fileType !in AllowedTypes then
      Outcome(Fail(400, "Invalid file type. Only PDF, JPEG, and PNG are allowed."), m, n)
    else if file.value.size > MaxSize then Outcome(Fail(400, "File size too large. Maximum size is 10MB."), m, n)
    else
      var fileName := FileName(now, file.value.name);
      var t := DtrTemplate(templateName.value, description, fileName, file.value.name, file.value.fileType,
                           file.value.size, UploadDir + fileName, None, true, now);
      if !ValidTemplate(t) then Outcome(Fail(500, "Failed to upload DTR template"), m, n)
      else Outcome(Ok(t), m[n := t], n + 1)
  }

  /** An upload is stored exactly when a name is given and the file has an
      allowed type, at most 10 MiB and a non-empty name; the stored template
      is active, valid, lives under the uploads directory with a name free of
      separators, and keeps the original name. */
  lemma {:induction false} UploadSpec(m: map<Id, DtrTemplate>, n: nat, file: Option<Upload>,
                                      templateName: Option<string>, description: Option<string>, now: nat)
    requires Below(m, n)
    ensures var o := Uploaded(m, n, file, templateName, description, now);
            Below(o.docs, o.nextId) &&
            (o.response.Ok? <==> file.Some? && Truthy(templateName) && file.value.fileType in AllowedTypes &&
                                 file.value.size <= MaxSize && file.value.name != "") &&
            (o.response.Fail? ==> o.docs == m && o.nextId == n) &&
            (o.response.Ok? ==>
               var t := o.response.value;
               o.docs == m[n := t] && o.nextId == n + 1 && ValidTemplate(t) && t.isActive &&
               t.originalName == file.value.name && t.fileSize == file.value.size &&
               t.filePath == UploadDir + t.fileName && '/' !in t.fileName &&
               t.extractedData.None?)
  {
    if file.Some? {
      var fileName := FileName(now, file.value.name);
      SanitizeSpec(file.value.name);
    }
  }

  /** A file of exactly 10 MiB is accepted; one byte more is refused. */
  lemma {:induction false} SizeBoundary(m: map<Id, DtrTemplate>, n: nat, name: string, fileType: string,
                                        templateName: string, now: nat)
    requires Below(m, n) && fileType in AllowedTypes && templateName != "" && name != ""
    ensures Uploaded(m, n, Some(Upload(name, fileType, MaxSize)), Some(templateName), None, now).response.Ok?
    ensures Uploaded(m, n, Some(Upload(name, fileType, MaxSize + 1)), Some(templateName), None, now).response
            == Fail(400, "File size too large. Maximum size is 10MB.")
  {
    UploadSpec(m, n, Some(Upload(name, fileType, MaxSize)), Some(templateName), None, now);
  }

  method UploadTemplate(db: Db, file: Option<Upload>, templateName: Option<string>, description: Option<string>,
                        now: nat)
    returns (r: Response<DtrTemplate>)
    requires db.Valid()
    modifies db`templates, db`nextId
    ensures db.Valid()
    ensures Uploaded(old(db.templates), old(db.nextId), file, templateName, description, now)
            == Outcome(r, db.templates, db.nextId)
  {
    if file.None? || !Truthy(templateName) {
      return Fail(400, "File and template name are required");
    }
    if file.value.fileType !in AllowedTypes {
      return Fail(400, "Invalid file type. Only PDF, JPEG, and PNG are allowed.");
    }
    if file.value.size > MaxSize {
      return Fail(400, "File size too large. Maximum size is 10MB.");
    }
    var fileName := FileName(now, file.value.name);
    var template := DtrTemplate(templateName.value, description, fileName, file.value.name, file.value.fileType,
                                file.value.size, UploadDir + fileName, None, true, now);
    if !ValidTemplate(template) {
      return Fail(500, "Failed to upload DTR template");
    }
    db.templates := db.templates[db.nextId := template];
    db.nextId := db.nextId + 1;
    r := Ok(template);
  }

  // ---------------------------------------------------------------------
  // PUT

  /** The PUT handler: a missing id finds nothing, like an unknown one. */
  function UpdateTemplate(m: map<Id, DtrTemplate>, templateId: Option<Id>, updates: TemplateFields)
    : Outcome<DtrTemplate, DtrTemplate>
  {
    if templateId.None? || templateId.value !in m then Outcome(Fail(404, "Template not found"), m, 0)
    else
      var t := ApplyTemplateFields(m[templateId.value], updates);
      Outcome(Ok(t), m[templateId.value := t], 0)
  }

  /** An update succeeds exactly for a stored template, stores the fields
      the update names, keeps the fields it does not name, and changes no
      other template. */
  lemma {:induction false} UpdateTemplateSpec(m: map<Id, DtrTemplate>, templateId: Option<Id>, updates: TemplateFields)
    ensures var o := UpdateTemplate(m, templateId, updates);
            (o.response.Ok? <==> templateId.Some? && templateId.value in m) &&
            (o.response.Fail? ==> o.docs == m) &&
            (o.response.Ok? ==>
               var t := m[templateId.value];
               o.docs == m[templateId.value := o.response.value] &&
               o.response.value == ApplyTemplateFields(t, updates) &&
               o.response.value.isActive == updates.isActive.GetOr(t.isActive) &&
               (updates.filePath.None? ==> o.response.value.filePath == t.filePath) &&
               (updates.extractedData.None? ==> o.response.value.extractedData == t.extractedData))
  {
  }

  method UpdateTemplateRecord(db: Db, templateId: Option<Id>, updates: TemplateFields) returns (r: Response<DtrTemplate>)
    requires db.Valid()
    modifies db`templates
    ensures db.Valid()
    ensures var o := UpdateTemplate(old(db.templates), templateId, updates);
            r == o.response && db.templates == o.docs
  {
    if templateId.None? || templateId.value !in db.templates {
      return Fail(404, "Template not found");
    }
    var template := ApplyTemplateFields(db.templates[templateId.value], updates);
    db.templates := db.templates[templateId.value := template];
    r := Ok(template);
  }

  // ---------------------------------------------------------------------
  // DELETE

  /** The DELETE handler removes the record; the uploaded file stays. */
  function DeleteTemplate(m: map<Id, DtrTemplate>, templateId: Option<Id>): Outcome<DtrTemplate, string> {
    if templateId.None? then Outcome(Fail(400, "Template ID is required"), m, 0)
    else if templateId.value !in m then Outcome(Fail(404, "Template not found"), m, 0)
    else Outcome(Ok("Template deleted successfully"), m - {templateId.value}, 0)
  }

  /** Deletion removes exactly the template asked for, and only when it exists. */
  lemma {:induction false} DeleteTemplateSpec(m: map<Id, DtrTemplate>, templateId: Option<Id>)
    ensures var o := DeleteTemplate(m, templateId);
            (o.response.Ok? <==> templateId.Some? && templateId.value in m) &&
            (forall k :: k in o.docs <==> k in m && (o.response.Fail? || k != templateId.value)) &&
            (forall k :: k in o.docs ==> o.docs[k] == m[k])
  {
  }

  method DeleteTemplateRecord(db: Db, templateId: Option<Id>) returns (r: Response<string>)
    requires db.Valid()
    modifies db`templates
    ensures db.Valid()
    ensures var o := DeleteTemplate(old(db.templates), templateId);
            r == o.response && db.templates == o.docs
  {
    if templateId.None? {
      return Fail(400, "Template ID is required");
    }
    if templateId.value !in db.templates {
      return Fail(404, "Template not found");
    }
    db.templates := db.templates - {templateId.value};
    r := Ok("Template deleted successfully");
  }
}
