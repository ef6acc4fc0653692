/** An uploaded Daily Time Record form (Civil Service Form No. 48) and the
    data read from it. */
module DtrTemplateModel {
  import opened Common

  /** One day of the form: the day number and its optional cells. */
  datatype DayEntry = DayEntry(
    day: int,
    amArrival: Option<string>,
    amDeparture: Option<string>,
    pmArrival: Option<string>,
    pmDeparture: Option<string>,
    undertime: Option<string>)

  datatype ExtractedData = ExtractedData(
    name: Option<string>,
    month: Option<string>,
    year: Option<string>,
    days: seq<DayEntry>)

  datatype DtrTemplate = DtrTemplate(
    templateName: string,
    description: Option<string>,
    fileName: string,
    originalName: string,
    fileType: string,
    fileSize: int,
    filePath: string,
    extractedData: Option<ExtractedData>,
    isActive: bool,
    createdAt: Time)

  /** The `updates` of a PUT; an absent field is None. Any field of the
      schema may be named, the stored file's too; `description` and
      `extractedData` may be sent as null, which clears them: Some(None). */
  datatype TemplateFields = TemplateFields(
    templateName: Option<string>,
    description: Option<Option<string>>,
    fileName: Option<string>,
    originalName: Option<string>,
    fileType: Option<string>,
    fileSize: Option<int>,
    filePath: Option<string>,
    extractedData: Option<Option<ExtractedData>>,
    isActive: Option<bool>)

  /** `$set` of the given fields, without validation: each field the update
      names is stored as given, the others keep their values. `createdAt`
      is a timestamp Mongoose keeps out of updates. */
  function ApplyTemplateFields(t: DtrTemplate, p: TemplateFields): (r: DtrTemplate)
    ensures r.templateName == p.templateName.GetOr(t.templateName)
    ensures r.description == p.description.GetOr(t.description)
    ensures r.fileName == p.fileName.GetOr(t.fileName) && r.originalName == p.originalName.GetOr(t.originalName)
    ensures r.fileType == p.fileType.GetOr(t.fileType) && r.fileSize == p.fileSize.GetOr(t.fileSize)
    ensures r.filePath == p.filePath.GetOr(t.filePath)
    ensures r.extractedData == p.extractedData.GetOr(t.extractedData)
    ensures r.isActive == p.isActive.GetOr(t.isActive) && r.createdAt == t.createdAt
  {
    DtrTemplate(p.templateName.GetOr(t.templateName), p.description.GetOr(t.description),
                p.fileName.GetOr(t.fileName), p.originalName.GetOr(t.originalName), p.fileType.GetOr(t.fileType),
                p.fileSize.GetOr(t.fileSize), p.filePath.GetOr(t.filePath), p.extractedData.GetOr(t.extractedData),
                p.isActive.GetOr(t.isActive), t.createdAt)
  }

  /** The checks `create` and `save` run: every required text is non-empty. */
  predicate ValidTemplate(t: DtrTemplate) {
    t.templateName != "" && t.fileName != "" && t.originalName != "" && t.fileType != "" && t.filePath != ""
  }
}
