/** The photo field of the employee form (src/components/app/photo-upload.tsx). Choosing a
    file puts the field in `loading`; when the file has been read as a data URI the preview
    shows it and the photo is sent for analysis, whose reply decides between `success`
    (the form's `photoUrl` takes the data URI) and `error`. The analysis itself is an
    external service; its reply is an input here. */
module PhotoUploadField {
  import opened Wrappers

  datatype AnalysisStatus = Idle | Loading | Success | Error

  datatype FaceDetection = FaceDetection(faceDetected: bool, confidence: real)

  datatype PhotoAnalysis = PhotoAnalysis(
    integrityCheck: bool,
    meetsDimensionRequirements: bool,
    meetsSizeRequirements: bool,
    faceDetectionResult: FaceDetection)

  /** What the analysis returns: the four checks and a feedback text. */
  datatype AnalysisOutput = AnalysisOutput(analysisResult: PhotoAnalysis, feedback: string)

  /** The reply of `analyzePhotoAction`. */
  datatype ActionReply = ActionReply(success: bool, data: Option<AnalysisOutput>, error: Option<string>)

  const DefaultFeedback: string := "An unknown error occurred during analysis."

  /** The photo is approved when all four checks pass. */
  predicate Approved(a: PhotoAnalysis)
  {
    && a.integrityCheck
    && a.meetsDimensionRequirements
    && a.meetsSizeRequirements
    && a.faceDetectionResult.faceDetected
  }

  /** `result.error || '…'`: an absent or empty error text gives the default message. */
  function FeedbackText(error: Option<string>): (r: string)
    ensures r != ""
    ensures error.Some? && error.value != "" ==> r == error.value
    ensures error.None? || error.value == "" ==> r == DefaultFeedback
  {
    if error.Some? && error.value != "" then error.value else DefaultFeedback
  }

  /** The result shown when the action itself failed: every check false, confidence 0. */
  function FailedAnalysis(error: Option<string>): (r: AnalysisOutput)
    ensures !Approved(r.analysisResult)
    ensures !r.analysisResult.integrityCheck && !r.analysisResult.meetsDimensionRequirements
    ensures !r.analysisResult.meetsSizeRequirements
    ensures r.analysisResult.faceDetectionResult == FaceDetection(false, 0.0)
    ensures r.feedback == FeedbackText(error)
  {
    AnalysisOutput(PhotoAnalysis(false, false, false, FaceDetection(false, 0.0)), FeedbackText(error))
  }

  class PhotoUpload {
    var preview: Option<string>
    var analysisStatus: AnalysisStatus
    var analysisResult: Option<AnalysisOutput>
    /** The form value `photoUrl`, written through `setValue`. */
    var photoUrl: Option<string>

    constructor (formPhotoUrl: Option<string>)
      ensures preview == None && analysisStatus == Idle && analysisResult == None
      ensures photoUrl == formPhotoUrl
    {
      preview := None;
      analysisStatus := Idle;
      analysisResult := None;
      photoUrl := formPhotoUrl;
    }

    /** `handleFileChange` up to the start of the read: with no file nothing changes;
        with one the field goes to `loading` and the previous result is cleared. Returns
        whether a read was started. */
    method HandleFileChange(file: Option<seq<bv8>>) returns (reading: bool)
      modifies this
      ensures reading <==> file.Some?
      ensures file.None? ==>
        && preview == old(preview) && analysisStatus == old(analysisStatus)
        && analysisResult == old(analysisResult) && photoUrl == old(photoUrl)
      ensures file.Some? ==>
        && analysisStatus == Loading && analysisResult == None
        && preview == old(preview) && photoUrl == old(photoUrl)
    {
      reading := false;
      if file.Some? {
        analysisStatus := Loading;
        analysisResult := None;
        reading := true;
      }
    }

    /** `reader.onloadend`: the preview shows the data URI, and the analysis reply decides
        the status, the result shown and whether the form takes the photo. */
    method ReaderLoaded(dataUri: string, reply: ActionReply)
      modifies this
      ensures preview == Some(dataUri)
      ensures analysisStatus == Success || analysisStatus == Error
      ensures analysisStatus == Success <==>
        reply.success && reply.data.Some? && Approved(reply.data.value.analysisResult)
      ensures analysisStatus == Success ==> photoUrl == Some(dataUri)
      ensures analysisStatus == Error ==> photoUrl == old(photoUrl)
      ensures reply.success && reply.data.Some? ==> analysisResult == reply.data
      ensures !(reply.success && reply.data.Some?) ==> analysisResult == Some(FailedAnalysis(reply.error))
    {
      preview := Some(dataUri);
      if reply.success && reply.data.Some? {
        analysisResult := reply.data;
        if Approved(reply.data.value.analysisResult) {
          analysisStatus := Success;
          photoUrl := Some(dataUri);
        } else {
          analysisStatus := Error;
        }
      } else {
        analysisStatus := Error;
        analysisResult := Some(FailedAnalysis(reply.error));
      }
    }
  }
}
