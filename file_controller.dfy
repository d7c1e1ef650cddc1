/** FileController.getClientIp: which request value is recorded as the
    uploader's address. */
module FileController {
  import opened JavaLang

  /** The three values getClientIp reads from the servlet request. */
  datatype ClientRequest = ClientRequest(
    xForwardedFor: Nullable<string>,   // header "x-forwarded-for"
    xRealIp: Nullable<string>,         // header "X-Real-IP"
    remoteAddr: Nullable<string>)      // getRemoteAddr()

  /** The test getClientIp applies to a header value: it must be present,
      non-empty and not "unknown" in any letter case. */
  predicate Usable(header: Nullable<string>)
  {
    header.Present? && |header.value| > 0 && !EqualsIgnoreCase(header.value, "unknown")
  }

  /** getClientIp: the forwarded-for header, else X-Real-IP, else the remote
      address, each header falling through when it fails the test. */
  function GetClientIp(request: ClientRequest): (ip: Nullable<string>)
    ensures Usable(request.xForwardedFor) ==> ip == request.xForwardedFor
    ensures !Usable(request.xForwardedFor) && Usable(request.xRealIp) ==> ip == request.xRealIp
    ensures !Usable(request.xForwardedFor) && !Usable(request.xRealIp) ==> ip == request.remoteAddr
    ensures Usable(ip) || ip == request.remoteAddr
  {
    var ip := request.xForwardedFor;
    var ip := if !Usable(ip) then request.xRealIp else ip;
    if !Usable(ip) then request.remoteAddr else ip
  }

  /** "unknown" is matched ignoring case, so "UNKNOWN" falls through too;
      an empty header also falls through. */
  lemma UnknownInAnyCaseFallsThrough(realIp: string, remote: Nullable<string>)
    requires |realIp| > 0 && !EqualsIgnoreCase(realIp, "unknown")
    ensures GetClientIp(ClientRequest(Present("UNKNOWN"), Present(realIp), remote)) == Present(realIp)
    ensures GetClientIp(ClientRequest(Present(""), Null, remote)) == remote
  {
    assert EqualsIgnoreCase("UNKNOWN", "unknown") by {
      assert ToLowerChar('U') == 'u' && ToLowerChar('N') == 'n' && ToLowerChar('K') == 'k';
      assert ToLowerChar('O') == 'o' && ToLowerChar('W') == 'w';
    }
  }
}
