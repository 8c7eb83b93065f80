/**
 The robot's HTTP interface as this program uses it: the device-status probe
 behind the connection check, the drive request body and the text-to-speech
 request body. The requests themselves are effects of the loops.
 */
module Robot {

  /** Body of `POST /api/drive`. */
  datatype DriveRequest = DriveRequest(linearVelocity: real, angularVelocity: real)

  /** Forward speed used for timed moves. */
  const DefaultLinearVelocity: real := 1.0

  /** Drive straight ahead at the default speed. */
  const Forward: DriveRequest := DriveRequest(DefaultLinearVelocity, 0.0)
  /** Zero both velocities. */
  const Halt: DriveRequest := DriveRequest(0.0, 0.0)

  /** Body of `POST /api/tts/speak`. */
  datatype SpeakRequest = SpeakRequest(text: string, flush: bool)

  /** The speak request interrupts whatever the robot is saying and carries the text verbatim. */
  function SpeakPayload(text: string): (r: SpeakRequest)
    ensures r.text == text
    ensures r.flush
  {
    SpeakRequest(text, true)
  }

  /** What `GET /api/device` gave: an HTTP status, or a `RequestException`
      (timeout, refused connection, DNS failure). */
  datatype DeviceResponse = Status(code: int) | RequestException

  /** `check_misty_connection`: reachable only on HTTP 200. */
  function CheckConnection(response: DeviceResponse): (online: bool)
    ensures online <==> response.Status? && response.code == 200
  {
    match response
    case Status(code) => code == 200
    case RequestException => false
  }
}
