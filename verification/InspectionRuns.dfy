/** The hello bit of a connection over runs, when the inspection of each packet is the scan for a server name. */
module InspectionRuns {
  import opened Common
  import opened Gateway
  import opened GatewayRuns
  import opened TlsScan

  /** The inspection of the packet treats the flag as the scan of this payload does. */
  ghost predicate Scans(p: Packet, data: Bytes) {
    forall hello: bool :: p.inspect(hello).clientHello == HelloAfter(data, hello)
  }

  ghost predicate AllScan(ps: seq<Packet>, payloads: seq<Bytes>) {
    |payloads| == |ps| && forall k :: 0 <= k < |ps| ==> Scans(ps[k], payloads[k])
  }

  /** Packet k of a run is inspected. */
  predicate Inspected(ps: seq<Packet>, k: nat)
    requires k < |ps|
  {
    RunsDpi(After(FRESH, ps[..k]), ps[k])
  }

  lemma InspectedPrefix(ps: seq<Packet>, n: nat, k: nat)
    requires k < n <= |ps|
    ensures Inspected(ps[..n], k) == Inspected(ps, k)
  {
    assert ps[..n][..k] == ps[..k];
  }

  /** Packet k starts a handshake without a server name, and no later inspected packet that is long enough has one. */
  ghost predicate Unanswered(ps: seq<Packet>, payloads: seq<Bytes>, k: nat)
    requires |payloads| == |ps| && k < |ps|
  {
    && Inspected(ps, k) && Scanned(payloads[k], false) && Missed(payloads[k])
    && forall j :: k < j < |ps| && Inspected(ps, j) && |payloads[j]| >= 16 ==> Missed(payloads[j])
  }

  /** One more packet keeps a start unanswered unless it answers it. */
  lemma UnansweredStep(ps: seq<Packet>, payloads: seq<Bytes>, k: nat)
    requires |payloads| == |ps| && k + 1 < |ps|
    ensures var n := |ps| - 1;
            Unanswered(ps, payloads, k) <==>
            Unanswered(ps[..n], payloads[..n], k) && (Inspected(ps, n) && |payloads[n]| >= 16 ==> Missed(payloads[n]))
  {
    hide Inspected, Missed;
    var n := |ps| - 1;
    forall j | 0 <= j < n ensures Inspected(ps[..n], j) == Inspected(ps, j) {
      InspectedPrefix(ps, n, j);
    }
  }

  /** After any run of packets the hello bit is set exactly when the scanner waits for a server name: an inspected
      packet started a handshake without one, and no inspected packet since then that was scanned had one. */
  lemma {:induction false} HelloWaits(ps: seq<Packet>, payloads: seq<Bytes>)
    requires AllScan(ps, payloads)
    ensures After(FRESH, ps).status.hello <==> exists k :: 0 <= k < |ps| && Unanswered(ps, payloads, k)
  {
    hide Missed, Inspected;
    if |ps| == 0 {
    } else {
      var n := |ps| - 1;
      var front, frontPayloads := ps[..n], payloads[..n];
      HelloWaits(front, frontPayloads);
      HelloStep(ps, payloads);
      forall k | 0 <= k < n
        ensures Unanswered(ps, payloads, k) <==>
                Unanswered(front, frontPayloads, k) && (Inspected(ps, n) && |payloads[n]| >= 16 ==> Missed(payloads[n]))
      {
        UnansweredStep(ps, payloads, k);
      }
      if k :| 0 <= k < n && Unanswered(front, frontPayloads, k) {
        assert Unanswered(ps, payloads, k) <==> (Inspected(ps, n) && |payloads[n]| >= 16 ==> Missed(payloads[n]));
      }
      assert Unanswered(ps, payloads, n) <==> Inspected(ps, n) && Scanned(payloads[n], false) && Missed(payloads[n]);
    }
  }

  /** The bit after the last packet of a run. */
  lemma HelloStep(ps: seq<Packet>, payloads: seq<Bytes>)
    requires |ps| > 0 && AllScan(ps, payloads)
    ensures var n := |ps| - 1; var before := After(FRESH, ps[..n]).status.hello;
            After(FRESH, ps).status.hello ==
            if Inspected(ps, n) && |payloads[n]| >= 16 && (Scanned(payloads[n], false) || before) then Missed(payloads[n])
            else before
  {
    hide Missed;
    var n := |ps| - 1;
    assert Scans(ps[n], payloads[n]);
  }
}
