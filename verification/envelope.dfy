/** What crosses the channel: the report the submitter fills in, and the
    four-field hybrid envelope that carries it. */
module Envelope {
  import opened Results
  import Json

  /** The `authTag` the browser sends: it has no GCM tag to offer. */
  const Sentinel := "not-used-in-crypto-js"

  /** The member names of the report object. */
  const NameMember := "complainantName"
  const IdMember := "complainantId"
  const TextMember := "reportText"
  /** The form's list of chosen files, sent along with the three fields. */
  const AttachmentsMember := "attachments"

  /** The three sensitive fields of a report. */
  datatype Report = Report(complainantName: string, complainantId: string, reportText: string)
  {
    /** No field is empty. */
    predicate Complete() {
      complainantName != "" && complainantId != "" && reportText != ""
    }

    /** The report as an object of three string members, in the order the
        form creates them. */
    function Members(): seq<Json.Member> {
      [Json.Member(NameMember, Json.Str(complainantName)),
       Json.Member(IdMember, Json.Str(complainantId)),
       Json.Member(TextMember, Json.Str(reportText))]
    }
  }

  /** The browser's and the server's completeness check: all three report members are truthy. */
  predicate Filled(v: Json.Value) {
    && Json.Truthy(Json.Field(v, NameMember))
    && Json.Truthy(Json.Field(v, IdMember))
    && Json.Truthy(Json.Field(v, TextMember))
  }

  /** `v` is an object whose three report members are the strings of
      `report`; it may hold other members as well. */
  predicate Carries(v: Json.Value, report: Report) {
    && Json.Field(v, NameMember) == Some(Json.Str(report.complainantName))
    && Json.Field(v, IdMember) == Some(Json.Str(report.complainantId))
    && Json.Field(v, TextMember) == Some(Json.Str(report.reportText))
  }

  /** An object carrying a report passes the completeness check exactly
      when the report has no empty field. */
  lemma CarriesFilled(v: Json.Value, report: Report)
    requires Carries(v, report)
    ensures Filled(v) <==> report.Complete()
  {
  }

  /** The form's data object: the three fields, then the chosen files. */
  function FormData(report: Report, files: seq<Json.Value>): (v: Json.Value)
    ensures v.Obj? && Carries(v, report)
    ensures Json.Field(v, AttachmentsMember) == Some(Json.Arr(files))
  {
    var ms := report.Members();
    Json.GetThree(NameMember, Json.Str(report.complainantName), IdMember, Json.Str(report.complainantId),
                  TextMember, Json.Str(report.reportText));
    var m := Json.Member(AttachmentsMember, Json.Arr(files));
    Json.GetAppend(ms, m, NameMember);
    Json.GetAppend(ms, m, IdMember);
    Json.GetAppend(ms, m, TextMember);
    Json.GetAppend(ms, m, AttachmentsMember);
    Json.Obj(ms + [m])
  }

  /** The envelope as the server receives it; a member may be missing, and
      `encryptedData` and `iv` are hex while `encryptedKey` is base64. */
  datatype Package = Package(
    encryptedKey: Option<string>,
    encryptedData: Option<string>,
    iv: Option<string>,
    authTag: Option<string>)
}
