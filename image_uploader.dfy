/** The image uploader (components/ImageUploader.tsx): the selected image, the loading
    flag, the error shown and the camera flag, updated by the file input, the camera
    buttons and the analyse button. Browser services are parameters: a chosen file is
    its size and the data URL the reader produces, the camera is whether the browser
    supports it and grants access, a capture is the frame's data URL, and `analyzeImage`
    is a function from the payload to its outcome. The two callbacks are recorded as
    the sequences of values they were called with. */
module ImageUploader {
  import opened Wrappers
  import opened JsString
  import opened Types
  import opened I18n
  import opened LanguageContext
  import GeminiService

  /** The size gate: 4 MiB. */
  const MaxImageBytes: nat := 4 * 1024 * 1024

  /** `!(file.size > 4 * 1024 * 1024)` */
  predicate WithinSizeLimit(size: nat) {
    size <= MaxImageBytes
  }

  /** The marker that makes an analysis error show the generic message. */
  const ApiKeyMarker: string := "API key"

  /** A file taken from the file input: its size in bytes and the data URL that
      `readAsDataURL` delivers for it. */
  datatype ChosenFile = ChosenFile(size: nat, dataUrl: string)

  /** `dataUrl.split(',')[1]`: the text between the first comma and the next one, or
      `undefined` (`None`) when there is no comma. */
  function Base64Payload(dataUrl: string): (r: Option<string>)
    ensures r.Some? ==> ',' !in r.value
  {
    var parts := Split(dataUrl, ',');
    if |parts| >= 2 then Some(parts[1]) else None
  }

  /** A payload is found exactly when the data URL has a comma. */
  lemma PayloadIffComma(dataUrl: string)
    ensures Base64Payload(dataUrl).Some? <==> ',' in dataUrl
  {
    var parts := Split(dataUrl, ',');
    if ',' !in dataUrl {
      SplitNoSeparator(dataUrl, ',');
    } else {
      JoinSplit(dataUrl, ',');
    }
  }

  /** The payload is the comma-free text after the first comma, up to the end or to the
      next comma. */
  lemma PayloadAfterFirstComma(head: string, payload: string, more: string)
    requires ',' !in head && ',' !in payload
    ensures Base64Payload(head + [','] + payload) == Some(payload)
    ensures Base64Payload(head + [','] + payload + [','] + more) == Some(payload)
  {
    SplitAtSeparator(head, ',', payload);
    SplitNoSeparator(payload, ',');
    SplitAtSeparator(payload, ',', more);
    SplitAtSeparator(head, ',', payload + [','] + more);
    assert head + [','] + payload + [','] + more == head + [','] + (payload + [','] + more);
  }

  /** The data URI that meal-image generation produces yields its image bytes back. */
  lemma MealImagePayload(bytes: string)
    requires ',' !in bytes
    ensures Base64Payload(GeminiService.DataUriPrefix + bytes) == Some(bytes)
  {
    var scheme := "data:image/jpeg;base64";
    assert GeminiService.DataUriPrefix == scheme + [','];
    assert ',' !in scheme;
    PayloadAfterFirstComma(scheme, bytes, "");
  }

  /** The message an analysis failure surfaces: the generic translated message when the
      error mentions the API key or has no message, the error's own message otherwise.
      A missing `message` and an empty one behave alike, so both are "". */
  function SurfacedError(message: string, apiErrorMessage: string): (r: string)
    ensures Includes(message, ApiKeyMarker) ==> r == apiErrorMessage
    ensures !Includes(message, ApiKeyMarker) && message != "" ==> r == message
    ensures message == "" ==> r == apiErrorMessage
  {
    if Includes(message, ApiKeyMarker) then apiErrorMessage
    else if message != "" then message
    else apiErrorMessage
  }

  /** The service's analysis failure names the API key, so the uploader always shows the
      generic message for it. */
  lemma ServiceFailureShowsGenericMessage(apiErrorMessage: string)
    ensures SurfacedError(GeminiService.AnalyzeFailureMessage, apiErrorMessage) == apiErrorMessage
  {
    GeminiService.AnalyzeFailureMentionsApiKey();
  }

  /** Exactly 4 MiB passes the size gate; one byte more does not. */
  lemma SizeGateBoundary()
    ensures WithinSizeLimit(4194304)
    ensures !WithinSizeLimit(4194304 + 1)
  {
  }

  class Uploader {
    /** The active and English tables that `t` reads. */
    const current: Table
    const english: Table

    var selectedImage: Option<string>
    var isLoading: bool
    var error: Option<string>
    var showCamera: bool

    /** The argument of every `analyzeImage` call, in order. */
    var analyzeCalls: seq<Option<string>>
    /** The argument of every `onImageAnalyzed` call, in order. */
    var analyzedReports: seq<seq<string>>
    /** The argument of every `onAnalysisError` call, in order. */
    var errorReports: seq<string>

    /** `t(key)` */
    function Tr(key: string): string {
      Translate(current, english, key, None)
    }

    /** The analyse button is enabled: an image is selected and no analysis runs. */
    function CanAnalyze(): bool
      reads this
    {
      Truthy(selectedImage) && !isLoading
    }

    constructor (current: Table, english: Table)
      ensures this.current == current && this.english == english
      ensures selectedImage == None && !isLoading && error == None && !showCamera
      ensures analyzeCalls == [] && analyzedReports == [] && errorReports == []
    {
      this.current := current;
      this.english := english;
      selectedImage := None;
      isLoading := false;
      error := None;
      showCamera := false;
      analyzeCalls := [];
      analyzedReports := [];
      errorReports := [];
    }

    /** `handleFileChange`: clears the error; a file over the limit sets the size error,
        clears the selection and is not read; any other file is read (`readStarted`)
        and closes the camera. The selection itself changes when the read completes. */
    method HandleFileChange(file: Option<ChosenFile>) returns (readStarted: bool)
      modifies this
      ensures readStarted <==> file.Some? && WithinSizeLimit(file.value.size)
      ensures file.Some? && !WithinSizeLimit(file.value.size) ==>
        error == Some(Tr("imageSizeError")) && selectedImage == None && showCamera == old(showCamera)
      ensures file.None? ==>
        error == None && selectedImage == old(selectedImage) && showCamera == old(showCamera)
      ensures readStarted ==> error == None && selectedImage == old(selectedImage) && !showCamera
      ensures isLoading == old(isLoading)
      ensures analyzeCalls == old(analyzeCalls) && analyzedReports == old(analyzedReports)
      ensures errorReports == old(errorReports)
    {
      error := None;
      readStarted := false;
      if file.Some? {
        if !WithinSizeLimit(file.value.size) {
          error := Some(Tr("imageSizeError"));
          selectedImage := None;
          return;
        }
        readStarted := true;
        showCamera := false;
      }
    }

    /** `reader.onloadend`: the data URL becomes the selected image. */
    method FileLoaded(dataUrl: string)
      modifies this
      ensures selectedImage == Some(dataUrl)
      ensures isLoading == old(isLoading) && error == old(error) && showCamera == old(showCamera)
      ensures analyzeCalls == old(analyzeCalls) && analyzedReports == old(analyzedReports)
      ensures errorReports == old(errorReports)
    {
      selectedImage := Some(dataUrl);
    }

    /** `startCamera` up to the `await`: clears the error and the selection and opens
        the camera. Without camera support it closes it again with an error and asks
        for nothing; otherwise `getUserMedia` is called (`requested`) and the camera
        stays open, with no error, while the browser answers. */
    method BeginStartCamera(mediaSupported: bool) returns (requested: bool)
      modifies this
      ensures requested <==> mediaSupported
      ensures selectedImage == None
      ensures showCamera <==> mediaSupported
      ensures error == if mediaSupported then None else Some(Tr("cameraNotSupportedError"))
      ensures isLoading == old(isLoading)
      ensures analyzeCalls == old(analyzeCalls) && analyzedReports == old(analyzedReports)
      ensures errorReports == old(errorReports)
    {
      error := None;
      showCamera := true;
      selectedImage := None;
      requested := mediaSupported;
      if !mediaSupported {
        error := Some(Tr("cameraNotSupportedError"));
        showCamera := false;
      }
    }

    /** `startCamera` after the `await`: a refused request shows the access error and
        closes the camera; a granted one changes no state here (the stream goes to the
        video element). */
    method FinishStartCamera(accessGranted: bool)
      modifies this
      ensures !accessGranted ==> error == Some(Tr("cameraAccessError")) && !showCamera
      ensures accessGranted ==> error == old(error) && showCamera == old(showCamera)
      ensures selectedImage == old(selectedImage) && isLoading == old(isLoading)
      ensures analyzeCalls == old(analyzeCalls) && analyzedReports == old(analyzedReports)
      ensures errorReports == old(errorReports)
    {
      if !accessGranted {
        error := Some(Tr("cameraAccessError"));
        showCamera := false;
      }
    }

    /** `startCamera` as a whole, with the browser's answer to `getUserMedia` given as
        `accessGranted`: the camera stays open iff it is supported and access is granted,
        and otherwise the matching error is shown. */
    method StartCamera(mediaSupported: bool, accessGranted: bool)
      modifies this
      ensures selectedImage == None
      ensures showCamera <==> mediaSupported && accessGranted
      ensures error == if !mediaSupported then Some(Tr("cameraNotSupportedError"))
                       else if !accessGranted then Some(Tr("cameraAccessError"))
                       else None
      ensures isLoading == old(isLoading)
      ensures analyzeCalls == old(analyzeCalls) && analyzedReports == old(analyzedReports)
      ensures errorReports == old(errorReports)
    {
      var requested := BeginStartCamera(mediaSupported);
      if requested {
        FinishStartCamera(accessGranted);
      }
    }

    /** `stopCamera` */
    method StopCamera()
      modifies this
      ensures !showCamera
      ensures selectedImage == old(selectedImage) && isLoading == old(isLoading) && error == old(error)
      ensures analyzeCalls == old(analyzeCalls) && analyzedReports == old(analyzedReports)
      ensures errorReports == old(errorReports)
    {
      showCamera := false;
    }

    /** `handleCapture`: clears the error; when the video and canvas are mounted, the
        captured frame becomes the selected image and the camera closes. */
    method HandleCapture(elementsMounted: bool, frame: string)
      modifies this
      ensures error == None
      ensures elementsMounted ==> selectedImage == Some(frame) && !showCamera
      ensures !elementsMounted ==> selectedImage == old(selectedImage) && showCamera == old(showCamera)
      ensures isLoading == old(isLoading)
      ensures analyzeCalls == old(analyzeCalls) && analyzedReports == old(analyzedReports)
      ensures errorReports == old(errorReports)
    {
      error := None;
      if elementsMounted {
        selectedImage := Some(frame);
        StopCamera();
      }
    }

    /** `handleAnalyze` up to the `await`: without a selected image it sets the
        selection error and calls nothing; otherwise analysis starts with the payload
        of the data URL, loading on and the error cleared. */
    method BeginAnalyze() returns (payload: Option<Option<string>>)
      modifies this
      ensures payload.Some? <==> Truthy(old(selectedImage))
      ensures !Truthy(old(selectedImage)) ==>
        error == Some(Tr("selectOrCaptureError")) && isLoading == old(isLoading)
        && analyzeCalls == old(analyzeCalls)
      ensures Truthy(old(selectedImage)) ==>
        && payload.value == Base64Payload(old(selectedImage).value)
        && isLoading && error == None
        && analyzeCalls == old(analyzeCalls) + [payload.value]
      ensures selectedImage == old(selectedImage) && showCamera == old(showCamera)
      ensures analyzedReports == old(analyzedReports) && errorReports == old(errorReports)
    {
      if !Truthy(selectedImage) {
        error := Some(Tr("selectOrCaptureError"));
        payload := None;
        return;
      }
      isLoading := true;
      error := None;
      var base64Data := Base64Payload(selectedImage.value);
      analyzeCalls := analyzeCalls + [base64Data];
      payload := Some(base64Data);
    }

    /** `handleAnalyze` after the `await`: a result goes to `onImageAnalyzed`; an error
        surfaces one message, both shown and passed to `onAnalysisError`; loading ends
        either way. */
    method FinishAnalyze(outcome: Result<seq<string>>)
      modifies this
      ensures !isLoading
      ensures outcome.Success? ==>
        && analyzedReports == old(analyzedReports) + [outcome.value]
        && error == old(error) && errorReports == old(errorReports)
      ensures outcome.Failure? ==>
        && error == Some(SurfacedError(outcome.message, Tr("analysisApiError")))
        && errorReports == old(errorReports) + [SurfacedError(outcome.message, Tr("analysisApiError"))]
        && analyzedReports == old(analyzedReports)
      ensures selectedImage == old(selectedImage) && showCamera == old(showCamera)
      ensures analyzeCalls == old(analyzeCalls)
    {
      match outcome {
        case Success(ingredients) =>
          analyzedReports := analyzedReports + [ingredients];
        case Failure(message) =>
          var apiErrorMessage := Tr("analysisApiError");
          error := Some(SurfacedError(message, apiErrorMessage));
          errorReports := errorReports + [SurfacedError(message, apiErrorMessage)];
      }
      isLoading := false;
    }

    /** `handleAnalyze` as a whole, with `analyzeImage` as a function of the payload. */
    method HandleAnalyze(analyzeImage: Option<string> -> Result<seq<string>>)
      modifies this
      ensures !Truthy(old(selectedImage)) ==>
        && error == Some(Tr("selectOrCaptureError")) && isLoading == old(isLoading)
        && analyzeCalls == old(analyzeCalls)
        && analyzedReports == old(analyzedReports) && errorReports == old(errorReports)
      ensures Truthy(old(selectedImage)) ==>
        var outcome := analyzeImage(Base64Payload(old(selectedImage).value));
        && !isLoading
        && analyzeCalls == old(analyzeCalls) + [Base64Payload(old(selectedImage).value)]
        && (outcome.Success? ==>
              analyzedReports == old(analyzedReports) + [outcome.value] && error == None
              && errorReports == old(errorReports))
        && (outcome.Failure? ==>
              error == Some(SurfacedError(outcome.message, Tr("analysisApiError")))
              && errorReports == old(errorReports) + [error.value]
              && analyzedReports == old(analyzedReports))
      ensures selectedImage == old(selectedImage) && showCamera == old(showCamera)
    {
      var payload := BeginAnalyze();
      if payload.Some? {
        var outcome := analyzeImage(payload.value);
        FinishAnalyze(outcome);
      }
    }
  }
}
