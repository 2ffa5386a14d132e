/** A declared TLS inventory: one observation per entry and required dimension, completeness, the verdict, and
    evidence references that keep pointing at their own entry's probe attempt. */
module TlsInventory {
  import opened Prelude
  import opened Ordering
  import opened Assessment
  import Decimal
  import Lists

  // ---------------------------------------------------------------- references into the attempt list

  const PREFIX := "probe_attempts["

  /** A reference into the k-th probe attempt. */
  function AttemptRef(k: nat, field: string): string {
    PREFIX + (Decimal.Print(k) + [']'] + field)
  }

  /** Position of the first `]`, or the length. */
  function CloseAt(text: string): (c: nat)
    ensures c <= |text| && (c < |text| ==> text[c] == ']')
    ensures forall i :: 0 <= i < c ==> text[i] != ']'
  {
    if text == "" || text[0] == ']' then 0 else 1 + CloseAt(text[1..])
  }

  function ShiftProbeReference(reference: string, offset: nat): string {
    if !(PREFIX <= reference) then reference
    else
      var suffix := reference[|PREFIX|..];
      var c := CloseAt(suffix);
      if c == |suffix| || !Decimal.IsNumber(suffix[..c]) then reference
      else AttemptRef(Decimal.Parse(suffix[..c]) + offset, suffix[c + 1..])
  }

  lemma {:induction false} CloseAfter(head: string, rest: string)
    requires forall i :: 0 <= i < |head| ==> head[i] != ']'
    ensures CloseAt(head + [']'] + rest) == |head|
  {
    var text := head + [']'] + rest;
    if head != "" {
      assert text[1..] == head[1..] + [']'] + rest && text[0] == head[0];
      CloseAfter(head[1..], rest);
    }
  }

  /** The text before the first `]` and the text after it. */
  lemma Parts(digits: string, field: string)
    requires Decimal.IsNumber(digits)
    ensures var suffix := digits + [']'] + field;
            && CloseAt(suffix) == |digits| < |suffix|
            && suffix[..|digits|] == digits && suffix[|digits| + 1..] == field
  {
    CloseAfter(digits, field);
  }

  /** A numbered reference has its number raised, whatever follows it. */
  lemma ShiftNumbered(digits: string, field: string, offset: nat)
    requires Decimal.IsNumber(digits)
    ensures ShiftProbeReference(PREFIX + (digits + [']'] + field), offset) == AttemptRef(Decimal.Parse(digits) + offset, field)
  {
    var suffix := digits + [']'] + field;
    Parts(digits, field);
    Behind(PREFIX, suffix);
    ShiftParts(PREFIX + suffix, suffix, digits, field, offset);
  }

  lemma ShiftParts(reference: string, suffix: string, digits: string, field: string, offset: nat)
    requires PREFIX <= reference && reference[|PREFIX|..] == suffix
    requires CloseAt(suffix) == |digits| < |suffix| && Decimal.IsNumber(digits)
    requires suffix[..|digits|] == digits && suffix[|digits| + 1..] == field
    ensures ShiftProbeReference(reference, offset) == AttemptRef(Decimal.Parse(digits) + offset, field)
  {
  }

  lemma Behind(prefix: string, suffix: string)
    ensures prefix <= prefix + suffix && (prefix + suffix)[|prefix|..] == suffix
  {
  }

  lemma ShiftAttempt(k: nat, field: string, offset: nat)
    ensures ShiftProbeReference(AttemptRef(k, field), offset) == AttemptRef(k + offset, field)
  {
    ShiftNumbered(Decimal.Print(k), field, offset);
    Decimal.ParsePrint(k);
  }

  /** Shifting by a and then by b is shifting by a + b, for every reference text. */
  lemma ShiftsAdd(reference: string, a: nat, b: nat)
    ensures ShiftProbeReference(ShiftProbeReference(reference, a), b) == ShiftProbeReference(reference, a + b)
  {
    if PREFIX <= reference {
      var suffix := reference[|PREFIX|..];
      var c := CloseAt(suffix);
      if c < |suffix| && Decimal.IsNumber(suffix[..c]) {
        ShiftAttempt(Decimal.Parse(suffix[..c]) + a, suffix[c + 1..], b);
      }
    }
  }

  ghost predicate Numbered(reference: string, digits: string, field: string) {
    Decimal.IsNumber(digits) && reference == PREFIX + (digits + [']'] + field)
  }

  /** Other texts are left alone; with `ShiftNumbered` this says what shifting does to every text. */
  lemma OtherTextsStay(reference: string, offset: nat)
    requires forall digits, field :: !Numbered(reference, digits, field)
    ensures ShiftProbeReference(reference, offset) == reference
  {
    if PREFIX <= reference {
      var suffix := reference[|PREFIX|..];
      var c := CloseAt(suffix);
      if c < |suffix| {
        assert suffix == suffix[..c] + [']'] + suffix[c + 1..];
        assert !Numbered(reference, suffix[..c], suffix[c + 1..]);
      }
    }
  }

  /** A reference names one attempt only. */
  lemma AttemptRefIsUnique(j: nat, f: string, k: nat, g: string)
    requires AttemptRef(j, f) == AttemptRef(k, g)
    ensures j == k && f == g
  {
    assert AttemptRef(j, f)[|PREFIX|..] == Decimal.Print(j) + [']'] + f;
    assert AttemptRef(k, g)[|PREFIX|..] == Decimal.Print(k) + [']'] + g;
    Decimal.DigitPrefixIsUnique(Decimal.Print(j), f, Decimal.Print(k), g, ']');
    Decimal.ParsePrint(j);
    Decimal.ParsePrint(k);
  }

  ghost predicate RefersTo(reference: string, k: nat) {
    exists field :: reference == AttemptRef(k, field)
  }

  // ---------------------------------------------------------------- entries, probes and observations

  datatype Requirement =
    | Handshake | CertificateName | CertificateChain | ProtocolSupport | NegotiatedCipher | OcspStapling

  function RequirementText(r: Requirement): string {
    match r
    case Handshake => "handshake"
    case CertificateName => "certificate_name"
    case CertificateChain => "certificate_chain"
    case ProtocolSupport => "protocol_support"
    case NegotiatedCipher => "negotiated_cipher"
    case OcspStapling => "ocsp_stapling"
  }

  datatype State = Observed | NotApplicable | Failed | Unavailable | NotRequested

  datatype Observation = Observation(requirement: Requirement, state: State, refs: seq<string>)

  datatype TlsInfo = TlsInfo(
    certSan: seq<string>, chainComplete: Option<bool>, protocols: seq<string>,
    cipherName: Option<string>, cipherPreference: Option<bool>, ocspStapled: Option<bool>)

  datatype InventoryEntry = InventoryEntry(
    entryId: string, expectedNames: seq<string>, sniName: Option<string>, notApplicable: set<Requirement>)

  datatype Inventory = Inventory(declaredComplete: bool, required: seq<Requirement>, entries: seq<InventoryEntry>)

  /** What probing one entry brought: the TLS facts if the handshake completed, and the findings of the rules. */
  datatype Probe = Probe(tls: Option<TlsInfo>, findings: seq<Finding>)

  /** Whether a host name is covered by the names in a certificate. */
  type NameMatch = (string, seq<string>) -> bool

  function ExpectedNames(entry: InventoryEntry): seq<string> {
    if entry.expectedNames != [] then entry.expectedNames
    else if entry.sniName.Some? then [entry.sniName.value]
    else []
  }

  function Field(name: string): string {
    "probe_attempts[0].tls_info" + name
  }

  function HandshakeObservation(tls: Option<TlsInfo>): Observation {
    if tls.None? then Observation(Handshake, Failed, []) else Observation(Handshake, Observed, [Field("")])
  }

  function CertificateNameObservation(entry: InventoryEntry, tls: TlsInfo, matches: NameMatch): Observation {
    var names := ExpectedNames(entry);
    if names == [] then Observation(CertificateName, NotRequested, [])
    else if tls.certSan == [] then Observation(CertificateName, Failed, [Field(".cert_san")])
    else if forall i :: 0 <= i < |names| ==> matches(names[i], tls.certSan)
    then Observation(CertificateName, Observed, [Field(".cert_san")])
    else Observation(CertificateName, Failed, [Field(".cert_san")])
  }

  function CertificateChainObservation(tls: TlsInfo): Observation {
    if tls.chainComplete == Some(true)
    then Observation(CertificateChain, Observed, [Field(".cert_chain_complete"), Field(".cert_chain_depth")])
    else if tls.chainComplete == Some(false) then Observation(CertificateChain, Failed, [Field(".cert_chain_complete")])
    else Observation(CertificateChain, Unavailable, [Field(".cert_chain_complete")])
  }

  function ProtocolSupportObservation(tls: TlsInfo): Observation {
    Observation(ProtocolSupport, if tls.protocols != [] then Observed else Unavailable, [Field(".supported_protocols")])
  }

  function NegotiatedCipherObservation(tls: TlsInfo): Observation {
    if tls.cipherName.None? then Observation(NegotiatedCipher, Unavailable, [])
    else if tls.cipherPreference.None? then Observation(NegotiatedCipher, Unavailable, [Field(".cipher_name")])
    else Observation(NegotiatedCipher, Observed, [Field(".cipher_name"), Field(".server_cipher_preference")])
  }

  function OcspStaplingObservation(tls: TlsInfo): Observation {
    var state := if tls.ocspStapled == Some(true) then Observed else if tls.ocspStapled == Some(false) then Failed else Unavailable;
    Observation(OcspStapling, state, [Field(".ocsp_stapled")])
  }

  function Observe(requirement: Requirement, entry: InventoryEntry, tls: Option<TlsInfo>, matches: NameMatch): Observation {
    if requirement in entry.notApplicable then Observation(requirement, NotApplicable, [])
    else if requirement.Handshake? then HandshakeObservation(tls)
    else if tls.None? then Observation(requirement, Failed, [])
    else match requirement
      case CertificateName => CertificateNameObservation(entry, tls.value, matches)
      case CertificateChain => CertificateChainObservation(tls.value)
      case ProtocolSupport => ProtocolSupportObservation(tls.value)
      case NegotiatedCipher => NegotiatedCipherObservation(tls.value)
      case OcspStapling => OcspStaplingObservation(tls.value)
  }

  /** One observation per required dimension, in order. */
  method EntryObservations(entry: InventoryEntry, required: seq<Requirement>, tls: Option<TlsInfo>, matches: NameMatch)
    returns (observations: seq<Observation>)
    ensures |observations| == |required|
    ensures forall i :: 0 <= i < |required| ==> observations[i] == Observe(required[i], entry, tls, matches)
    ensures forall i :: 0 <= i < |required| ==>
      observations[i].requirement == required[i] && StateIs(observations[i].state, required[i], entry, tls, matches)
  {
    observations := [];
    for k := 0 to |required|
      invariant |observations| == k
      invariant forall i :: 0 <= i < k ==> observations[i] == Observe(required[i], entry, tls, matches)
    {
      observations := observations + [Observe(required[k], entry, tls, matches)];
    }
    forall i | 0 <= i < |required|
      ensures observations[i].requirement == required[i] && StateIs(observations[i].state, required[i], entry, tls, matches)
    {
      ObservationTells(required[i], entry, tls, matches);
      StateExactly(observations[i].state, required[i], entry, tls, matches);
    }
  }

  /** The TLS facts bear out a dimension. */
  predicate Met(requirement: Requirement, entry: InventoryEntry, tls: TlsInfo, matches: NameMatch) {
    match requirement
    case Handshake => true
    case CertificateName =>
      && ExpectedNames(entry) != [] && tls.certSan != []
      && forall i :: 0 <= i < |ExpectedNames(entry)| ==> matches(ExpectedNames(entry)[i], tls.certSan)
    case CertificateChain => tls.chainComplete == Some(true)
    case ProtocolSupport => tls.protocols != []
    case NegotiatedCipher => tls.cipherName.Some? && tls.cipherPreference.Some?
    case OcspStapling => tls.ocspStapled == Some(true)
  }

  /** What it takes to bear out a dimension, spelled out. The names to match are the expected ones, or else the one that
      was sent. */
  lemma MetExactly(entry: InventoryEntry, tls: TlsInfo, matches: NameMatch)
    ensures Met(Handshake, entry, tls, matches)
    ensures Met(CertificateName, entry, tls, matches) <==>
      && tls.certSan != []
      && (if entry.expectedNames != [] then forall name :: name in entry.expectedNames ==> matches(name, tls.certSan)
          else entry.sniName.Some? && matches(entry.sniName.value, tls.certSan))
    ensures Met(CertificateChain, entry, tls, matches) <==> tls.chainComplete == Some(true)
    ensures Met(ProtocolSupport, entry, tls, matches) <==> tls.protocols != []
    ensures Met(NegotiatedCipher, entry, tls, matches) <==> tls.cipherName.Some? && tls.cipherPreference.Some?
    ensures Met(OcspStapling, entry, tls, matches) <==> tls.ocspStapled == Some(true)
  {
    var names := ExpectedNames(entry);
    assert (forall i :: 0 <= i < |names| ==> matches(names[i], tls.certSan)) <==> forall name :: name in names ==> matches(name, tls.certSan);
    if entry.expectedNames == [] && entry.sniName.Some? { assert names[0] == entry.sniName.value; }
  }

  /** A dimension is settled for an entry: declared not applicable, or borne out by a completed handshake. */
  predicate SettledFor(requirement: Requirement, entry: InventoryEntry, tls: Option<TlsInfo>, matches: NameMatch) {
    requirement in entry.notApplicable || (tls.Some? && Met(requirement, entry, tls.value, matches))
  }

  predicate Good(state: State) {
    state.Observed? || state.NotApplicable?
  }

  lemma ObservationTells(requirement: Requirement, entry: InventoryEntry, tls: Option<TlsInfo>, matches: NameMatch)
    ensures var o := Observe(requirement, entry, tls, matches);
            && o.requirement == requirement
            && (Good(o.state) <==> SettledFor(requirement, entry, tls, matches))
            && (o.state.NotApplicable? <==> requirement in entry.notApplicable)
  {
  }

  /** Each state of an observation, spelled out. */
  ghost predicate StateIs(state: State, requirement: Requirement, entry: InventoryEntry, tls: Option<TlsInfo>, matches: NameMatch) {
    match state
    case NotApplicable => requirement in entry.notApplicable
    case NotRequested =>
      && requirement !in entry.notApplicable && requirement.CertificateName? && tls.Some?
      && entry.expectedNames == [] && entry.sniName.None?
    case Unavailable =>
      && requirement !in entry.notApplicable && tls.Some?
      && (|| (requirement.CertificateChain? && tls.value.chainComplete.None?)
          || (requirement.ProtocolSupport? && tls.value.protocols == [])
          || (requirement.NegotiatedCipher? && (tls.value.cipherName.None? || tls.value.cipherPreference.None?))
          || (requirement.OcspStapling? && tls.value.ocspStapled.None?))
    case Failed =>
      && requirement !in entry.notApplicable
      && (|| tls.None?
          || (requirement.CertificateName? && (entry.expectedNames != [] || entry.sniName.Some?)
              && !Met(requirement, entry, tls.value, matches))
          || (requirement.CertificateChain? && tls.value.chainComplete == Some(false))
          || (requirement.OcspStapling? && tls.value.ocspStapled == Some(false)))
    case Observed =>
      requirement !in entry.notApplicable && tls.Some? && Met(requirement, entry, tls.value, matches)
  }

  lemma StateExactly(state: State, requirement: Requirement, entry: InventoryEntry, tls: Option<TlsInfo>, matches: NameMatch)
    ensures Observe(requirement, entry, tls, matches).state == state <==> StateIs(state, requirement, entry, tls, matches)
  {
    if tls.Some? {
      EitherOrNone(tls.value.chainComplete);
      EitherOrNone(tls.value.ocspStapled);
    }
  }

  lemma EitherOrNone(flag: Option<bool>)
    ensures flag == Some(true) || flag == Some(false) || flag == None
  {
    if flag.Some? { assert flag == Some(flag.value) && (flag.value == true || flag.value == false); }
  }

  /** The TLS facts that an observation of a dimension rests on. */
  ghost predicate LooksAt(requirement: Requirement, entry: InventoryEntry, tls: TlsInfo, field: string) {
    match requirement
    case Handshake => field == ""
    case CertificateName => field == ".cert_san" && (entry.expectedNames != [] || entry.sniName.Some?)
    case CertificateChain =>
      field == ".cert_chain_complete" || (field == ".cert_chain_depth" && tls.chainComplete == Some(true))
    case ProtocolSupport => field == ".supported_protocols"
    case NegotiatedCipher =>
      && tls.cipherName.Some?
      && (field == ".cipher_name" || (field == ".server_cipher_preference" && tls.cipherPreference.Some?))
    case OcspStapling => field == ".ocsp_stapled"
  }

  lemma {:induction false} TwoNames(a: string, b: string, x: string)
    ensures x in [Field(a), Field(b)] <==> exists field :: (field == a || field == b) && x == Field(field)
    ensures x in [Field(a)] <==> exists field :: field == a && x == Field(field)
  {
    assert Field(a) in [Field(a), Field(b)] && Field(b) in [Field(a), Field(b)];
  }

  /** The references of an observation are the facts it rests on. */
  ghost predicate RestsOn(refs: seq<string>, requirement: Requirement, entry: InventoryEntry, tls: TlsInfo) {
    forall x :: x in refs <==> exists field :: LooksAt(requirement, entry, tls, field) && x == Field(field)
  }

  lemma NameRests(entry: InventoryEntry, tls: TlsInfo, matches: NameMatch)
    ensures RestsOn(CertificateNameObservation(entry, tls, matches).refs, CertificateName, entry, tls)
  {
    var refs := CertificateNameObservation(entry, tls, matches).refs;
    forall x ensures x in refs <==> exists field :: LooksAt(CertificateName, entry, tls, field) && x == Field(field) {
      TwoNames(".cert_san", ".cert_san", x);
    }
  }

  lemma ChainRests(entry: InventoryEntry, tls: TlsInfo)
    ensures RestsOn(CertificateChainObservation(tls).refs, CertificateChain, entry, tls)
  {
    var refs := CertificateChainObservation(tls).refs;
    forall x ensures x in refs <==> exists field :: LooksAt(CertificateChain, entry, tls, field) && x == Field(field) {
      TwoNames(".cert_chain_complete", ".cert_chain_depth", x);
    }
  }

  lemma CipherRests(entry: InventoryEntry, tls: TlsInfo)
    ensures RestsOn(NegotiatedCipherObservation(tls).refs, NegotiatedCipher, entry, tls)
  {
    var refs := NegotiatedCipherObservation(tls).refs;
    forall x ensures x in refs <==> exists field :: LooksAt(NegotiatedCipher, entry, tls, field) && x == Field(field) {
      TwoNames(".cipher_name", ".server_cipher_preference", x);
    }
  }

  lemma OthersRest(entry: InventoryEntry, tls: TlsInfo)
    ensures RestsOn([Field("")], Handshake, entry, tls)
    ensures RestsOn(ProtocolSupportObservation(tls).refs, ProtocolSupport, entry, tls)
    ensures RestsOn(OcspStaplingObservation(tls).refs, OcspStapling, entry, tls)
  {
    forall x
      ensures x in [Field("")] <==> exists field :: LooksAt(Handshake, entry, tls, field) && x == Field(field)
      ensures x in [Field(".supported_protocols")] <==> exists field :: LooksAt(ProtocolSupport, entry, tls, field) && x == Field(field)
      ensures x in [Field(".ocsp_stapled")] <==> exists field :: LooksAt(OcspStapling, entry, tls, field) && x == Field(field)
    {
      TwoNames("", "", x);
      TwoNames(".supported_protocols", ".supported_protocols", x);
      TwoNames(".ocsp_stapled", ".ocsp_stapled", x);
    }
  }

  lemma ObservationRests(requirement: Requirement, entry: InventoryEntry, tls: Option<TlsInfo>, matches: NameMatch)
    ensures var o := Observe(requirement, entry, tls, matches);
            if tls.None? || requirement in entry.notApplicable then o.refs == [] else RestsOn(o.refs, requirement, entry, tls.value)
  {
    if tls.Some? && requirement !in entry.notApplicable {
      match requirement
      case CertificateName => NameRests(entry, tls.value, matches);
      case CertificateChain => ChainRests(entry, tls.value);
      case NegotiatedCipher => CipherRests(entry, tls.value);
      case _ => OthersRest(entry, tls.value);
    }
  }

  lemma FieldIsFirst(name: string)
    ensures Field(name) == AttemptRef(0, ".tls_info" + name)
  {
    assert Decimal.Print(0) == "0";
  }

  // ---------------------------------------------------------------- the entry loop

  /** The analysis of one entry; the attempt stands for the entry's single probe record. */
  datatype EntryAnalysis = EntryAnalysis(entry: InventoryEntry, observations: seq<Observation>, findings: seq<Finding>)

  function ShiftAll(refs: seq<string>, offset: nat): seq<string> {
    seq(|refs|, i requires 0 <= i < |refs| => ShiftProbeReference(refs[i], offset))
  }

  function OffsetObservations(observations: seq<Observation>, offset: nat): seq<Observation> {
    seq(|observations|, i requires 0 <= i < |observations| =>
      observations[i].(refs := ShiftAll(observations[i].refs, offset)))
  }

  function OffsetProbeReferences(observations: seq<Observation>, offset: nat): seq<Observation> {
    if offset == 0 then observations else OffsetObservations(observations, offset)
  }

  lemma ShiftAllAdds(refs: seq<string>, a: nat, b: nat)
    ensures ShiftAll(ShiftAll(refs, a), b) == ShiftAll(refs, a + b)
  {
    forall i | 0 <= i < |refs|
      ensures ShiftProbeReference(ShiftProbeReference(refs[i], a), b) == ShiftProbeReference(refs[i], a + b)
    {
      ShiftsAdd(refs[i], a, b);
    }
  }

  lemma OffsetObservationsAdds(observations: seq<Observation>, a: nat, b: nat)
    ensures OffsetObservations(OffsetObservations(observations, a), b) == OffsetObservations(observations, a + b)
  {
    forall i | 0 <= i < |observations|
      ensures ShiftAll(ShiftAll(observations[i].refs, a), b) == ShiftAll(observations[i].refs, a + b)
    {
      ShiftAllAdds(observations[i].refs, a, b);
    }
  }

  /** Rebasing twice is rebasing once by the sum. */
  lemma OffsetsAdd(observations: seq<Observation>, a: nat, b: nat)
    ensures OffsetProbeReferences(OffsetProbeReferences(observations, a), b) == OffsetProbeReferences(observations, a + b)
  {
    OffsetObservationsAdds(observations, a, b);
  }

  /** What the k-th entry's analysis is: its observations in the order of the required dimensions, each
      reference pointing at the k-th probe attempt. */
  ghost predicate AnalysisOf(a: EntryAnalysis, k: nat, entry: InventoryEntry, required: seq<Requirement>, probe: Probe,
                             matches: NameMatch)
  {
    && a.entry == entry && a.findings == probe.findings && |a.observations| == |required|
    && forall i :: 0 <= i < |required| ==> ObservedFor(a.observations[i], k, required[i], entry, probe.tls, matches)
  }

  ghost predicate ObservedFor(o: Observation, k: nat, requirement: Requirement, entry: InventoryEntry, tls: Option<TlsInfo>,
                              matches: NameMatch)
  {
    && o.requirement == requirement
    && o.state == Observe(requirement, entry, tls, matches).state
    && forall x :: x in o.refs <==> Cites(x, k, requirement, entry, tls)
  }

  /** The reference names a fact of the k-th attempt that the dimension rests on. */
  ghost predicate Cites(x: string, k: nat, requirement: Requirement, entry: InventoryEntry, tls: Option<TlsInfo>) {
    && tls.Some? && requirement !in entry.notApplicable
    && exists field :: LooksAt(requirement, entry, tls.value, field) && x == AttemptRef(k, ".tls_info" + field)
  }

  lemma ShiftedField(field: string, k: nat)
    ensures ShiftProbeReference(Field(field), k) == AttemptRef(k, ".tls_info" + field)
  {
    FieldIsFirst(field);
    ShiftAttempt(0, ".tls_info" + field, k);
  }

  lemma ShiftedRefs(refs: seq<string>, k: nat, requirement: Requirement, entry: InventoryEntry, tls: TlsInfo, x: string)
    requires RestsOn(refs, requirement, entry, tls)
    ensures x in ShiftAll(refs, k) <==> exists field :: LooksAt(requirement, entry, tls, field) && x == AttemptRef(k, ".tls_info" + field)
  {
    if x in ShiftAll(refs, k) {
      var i :| 0 <= i < |refs| && ShiftProbeReference(refs[i], k) == x;
      assert refs[i] in refs;
      var field :| LooksAt(requirement, entry, tls, field) && refs[i] == Field(field);
      ShiftedField(field, k);
    }
    if field :| LooksAt(requirement, entry, tls, field) && x == AttemptRef(k, ".tls_info" + field) {
      assert Field(field) in refs;
      var i :| 0 <= i < |refs| && refs[i] == Field(field);
      ShiftedField(field, k);
      assert ShiftAll(refs, k)[i] == x;
    }
  }

  lemma UnshiftedRefs(refs: seq<string>, requirement: Requirement, entry: InventoryEntry, tls: TlsInfo, x: string)
    requires RestsOn(refs, requirement, entry, tls)
    ensures x in refs <==> exists field :: LooksAt(requirement, entry, tls, field) && x == AttemptRef(0, ".tls_info" + field)
  {
    forall field ensures Field(field) == AttemptRef(0, ".tls_info" + field) { FieldIsFirst(field); }
  }

  lemma ShiftedObservation(observations: seq<Observation>, i: nat, k: nat, requirement: Requirement, entry: InventoryEntry,
                           tls: Option<TlsInfo>, matches: NameMatch)
    requires i < |observations| && observations[i] == Observe(requirement, entry, tls, matches)
    ensures |OffsetProbeReferences(observations, k)| == |observations|
    ensures ObservedFor(OffsetProbeReferences(observations, k)[i], k, requirement, entry, tls, matches)
  {
    var refs := observations[i].refs;
    ObservationTells(requirement, entry, tls, matches);
    ObservationRests(requirement, entry, tls, matches);
    if refs == [] { assert ShiftAll(refs, k) == []; }
    if tls.Some? && requirement !in entry.notApplicable {
      forall x
        ensures x in OffsetProbeReferences(observations, k)[i].refs <==> Cites(x, k, requirement, entry, tls)
      {
        ShiftedRefs(refs, k, requirement, entry, tls.value, x);
        UnshiftedRefs(refs, requirement, entry, tls.value, x);
      }
    }
  }

  /** Probe the entries in order; each analysis is rebased onto the attempts accumulated so far. */
  method AnalyzeEntries(inventory: Inventory, probes: seq<Probe>, matches: NameMatch)
    returns (analyses: seq<EntryAnalysis>, attempts: seq<Option<TlsInfo>>, findings: seq<Finding>)
    requires |probes| == |inventory.entries|
    ensures |analyses| == |attempts| == |inventory.entries|
    ensures forall k :: 0 <= k < |analyses| ==>
              AnalysisOf(analyses[k], k, inventory.entries[k], inventory.required, probes[k], matches)
    ensures forall k :: 0 <= k < |attempts| ==> attempts[k] == probes[k].tls
    ensures forall f :: f in findings <==> exists k :: 0 <= k < |probes| && f in probes[k].findings
  {
    analyses, attempts, findings := [], [], [];
    for k := 0 to |inventory.entries|
      invariant |analyses| == |attempts| == k
      invariant forall j :: 0 <= j < k ==>
                  AnalysisOf(analyses[j], j, inventory.entries[j], inventory.required, probes[j], matches)
      invariant forall j :: 0 <= j < k ==> attempts[j] == probes[j].tls
      invariant forall f :: f in findings <==> exists j :: 0 <= j < k && f in probes[j].findings
    {
      var entry := inventory.entries[k];
      var observations := EntryObservations(entry, inventory.required, probes[k].tls, matches);
      forall i | 0 <= i < |inventory.required|
        ensures ObservedFor(OffsetProbeReferences(observations, k)[i], k, inventory.required[i], entry, probes[k].tls, matches)
      {
        ShiftedObservation(observations, i, k, inventory.required[i], entry, probes[k].tls, matches);
      }
      analyses := analyses + [EntryAnalysis(entry, OffsetProbeReferences(observations, |attempts|), probes[k].findings)];
      attempts := attempts + [probes[k].tls];
      findings := findings + probes[k].findings;
    }
  }

  // ---------------------------------------------------------------- completeness

  function MissingLabel(a: EntryAnalysis, o: Observation): string {
    a.entry.entryId + ":" + RequirementText(o.requirement)
  }

  /** A required observation of an entry that did not complete. */
  ghost predicate Lacking(analyses: seq<EntryAnalysis>, required: seq<Requirement>, k: int, i: int) {
    && 0 <= k < |analyses| && 0 <= i < |analyses[k].observations|
    && analyses[k].observations[i].requirement in required && !Good(analyses[k].observations[i].state)
  }

  ghost predicate LackingUpTo(analyses: seq<EntryAnalysis>, required: seq<Requirement>, n: nat, m: nat, x: string) {
    exists k, i :: Lacking(analyses, required, k, i) && (k < n || (k == n && i < m))
      && x == MissingLabel(analyses[k], analyses[k].observations[i])
  }

  method ObservationCompleteness(required: seq<Requirement>, analyses: seq<EntryAnalysis>)
    returns (complete: bool, missing: seq<string>)
    ensures complete <==> !exists k, i :: Lacking(analyses, required, k, i)
    ensures complete <==> missing == []
    ensures Increasing(missing)
    ensures forall x :: x in missing <==> LackingUpTo(analyses, required, |analyses|, 0, x)
  {
    var labels: set<string> := {};
    for k := 0 to |analyses|
      invariant forall x :: x in labels <==> LackingUpTo(analyses, required, k, 0, x)
    {
      var observations := analyses[k].observations;
      for i := 0 to |observations|
        invariant forall x :: x in labels <==> LackingUpTo(analyses, required, k, i, x)
      {
        if observations[i].requirement in required && !Good(observations[i].state) {
          labels := labels + {MissingLabel(analyses[k], observations[i])};
          assert Lacking(analyses, required, k, i);
        }
      }
    }
    missing := SortSet(labels);
    complete := missing == [];
    assert missing != [] ==> missing[0] in labels;
    if exists k, i :: Lacking(analyses, required, k, i) {
      var k, i :| Lacking(analyses, required, k, i);
      assert LackingUpTo(analyses, required, |analyses|, 0, MissingLabel(analyses[k], analyses[k].observations[i]));
    }
  }

  // ---------------------------------------------------------------- the verdict

  const CONTROL_ID := "external.tls_inventory"

  /** The evidence dimension a TLS rule's findings speak about. */
  type Dimensions = map<string, Requirement>

  predicate RequiredFinding(f: Finding, required: seq<Requirement>, dimensions: Dimensions) {
    f.ruleId in dimensions && dimensions[f.ruleId] in required
  }

  predicate UnmappedFinding(f: Finding, dimensions: Dimensions) {
    f.ruleId !in dimensions
  }

  /** Some finding speaks against a required dimension. */
  ghost predicate SomeRequired(findings: seq<Finding>, required: seq<Requirement>, dimensions: Dimensions) {
    exists f :: f in findings && f.ruleId in dimensions && dimensions[f.ruleId] in required
  }

  /** Every finding is about a known dimension that is not required. */
  ghost predicate OnlyOptional(findings: seq<Finding>, required: seq<Requirement>, dimensions: Dimensions) {
    forall f :: f in findings ==> f.ruleId in dimensions && dimensions[f.ruleId] !in required
  }

  method ClassifyFindings(findings: seq<Finding>, required: seq<Requirement>, dimensions: Dimensions)
    returns (failing: seq<Finding>, optional: seq<Finding>, unmapped: seq<Finding>)
    ensures forall f :: f in failing <==> f in findings && RequiredFinding(f, required, dimensions)
    ensures forall f :: f in unmapped <==> f in findings && UnmappedFinding(f, dimensions)
    ensures forall f :: f in optional <==>
              f in findings && !RequiredFinding(f, required, dimensions) && !UnmappedFinding(f, dimensions)
    ensures |failing| + |optional| + |unmapped| == |findings|
  {
    failing, optional, unmapped := [], [], [];
    for i := 0 to |findings|
      invariant forall f :: f in failing <==> f in findings[..i] && RequiredFinding(f, required, dimensions)
      invariant forall f :: f in unmapped <==> f in findings[..i] && UnmappedFinding(f, dimensions)
      invariant forall f :: f in optional <==>
                  f in findings[..i] && !RequiredFinding(f, required, dimensions) && !UnmappedFinding(f, dimensions)
      invariant |failing| + |optional| + |unmapped| == i
    {
      var finding := findings[i];
      assert findings[..i + 1] == findings[..i] + [finding];
      if finding.ruleId !in dimensions { unmapped := unmapped + [finding]; }
      else if dimensions[finding.ruleId] in required { failing := failing + [finding]; }
      else { optional := optional + [finding]; }
    }
    Lists.Whole(findings);
  }

  /** Every required observation of the entry was declared not applicable. */
  predicate Waived(a: EntryAnalysis, required: seq<Requirement>) {
    forall i :: 0 <= i < |a.observations| && a.observations[i].requirement in required ==> a.observations[i].state.NotApplicable?
  }

  predicate AllWaived(analyses: seq<EntryAnalysis>, required: seq<Requirement>) {
    analyses != [] && forall k :: 0 <= k < |analyses| ==> Waived(analyses[k], required)
  }

  method EvidenceReferences(analyses: seq<EntryAnalysis>) returns (references: seq<string>)
    ensures Increasing(references)
    ensures forall r :: r in references <==> exists k, i :: ReferenceAt(analyses, k, i, r)
  {
    var found: set<string> := {};
    for k := 0 to |analyses|
      invariant forall r :: r in found <==> exists j, i :: j < k && ReferenceAt(analyses, j, i, r)
    {
      var observations := analyses[k].observations;
      for i := 0 to |observations|
        invariant forall r :: r in found <==> exists j, q :: (j < k || (j == k && q < i)) && ReferenceAt(analyses, j, q, r)
      {
        found := found + set r | r in observations[i].refs;
        assert forall r :: r in observations[i].refs <==> ReferenceAt(analyses, k, i, r);
      }
    }
    references := SortSet(found);
  }

  predicate ReferenceAt(analyses: seq<EntryAnalysis>, k: int, i: int, r: string) {
    0 <= k < |analyses| && 0 <= i < |analyses[k].observations| && r in analyses[k].observations[i].refs
  }

  method InventoryControlAssessment(declaredComplete: bool, required: seq<Requirement>, analyses: seq<EntryAnalysis>,
                                    findings: seq<Finding>, missing: seq<string>, complete: bool, dimensions: Dimensions)
    returns (record: ControlRecord, references: seq<string>)
    ensures record.controlId == CONTROL_ID
    ensures record.status.NativeFail? <==> SomeRequired(findings, required, dimensions)
    ensures record.status.NativePass? || record.status.NativeNotApplicable? <==>
              OnlyOptional(findings, required, dimensions) && declaredComplete && missing == []
    ensures record.status.NativeNotApplicable? ==> AllWaived(analyses, required)
    ensures record.status.NativePass? ==> !AllWaived(analyses, required)
    ensures OptionalBool(record.metadata, "inventory_complete") == Some(declaredComplete)
    ensures OptionalBool(record.metadata, "observations_complete") == Some(complete)
    ensures Increasing(references)
    ensures forall r :: r in references <==> exists k, i :: ReferenceAt(analyses, k, i, r)
  {
    var failing, optional, unmapped := ClassifyFindings(findings, required, dimensions);
    var status :=
      if failing != [] then NativeFail
      else if unmapped != [] then NativeIndeterminate
      else if !declaredComplete then NativeIndeterminate
      else if missing != [] then NativeIndeterminate
      else if AllWaived(analyses, required) then NativeNotApplicable
      else NativePass;
    if failing != [] { assert failing[0] in failing; }
    if unmapped != [] { assert unmapped[0] in unmapped; }
    references := EvidenceReferences(analyses);
    record := ControlRecord(CONTROL_ID, status, map[
      "inventory_complete" := JBool(declaredComplete),
      "observations_complete" := JBool(complete)]);
  }

  // ---------------------------------------------------------------- the whole inventory

  /** Nothing speaks against the inventory: it was declared complete, every required dimension of every entry is
      settled, and no finding speaks against a required dimension or about an unknown one. */
  ghost predicate Sound(inventory: Inventory, probes: seq<Probe>, matches: NameMatch, dimensions: Dimensions)
    requires |probes| == |inventory.entries|
  {
    && inventory.declaredComplete
    && AllSettled(inventory, probes, matches)
    && (forall k :: 0 <= k < |probes| ==> OnlyOptional(probes[k].findings, inventory.required, dimensions))
  }

  /** What a pass attests: the inventory is sound and not all of it is waived. */
  ghost predicate Verified(inventory: Inventory, probes: seq<Probe>, matches: NameMatch, dimensions: Dimensions)
    requires |probes| == |inventory.entries|
  {
    Sound(inventory, probes, matches, dimensions) && !NothingApplies(inventory)
  }

  ghost predicate AllSettled(inventory: Inventory, probes: seq<Probe>, matches: NameMatch)
    requires |probes| == |inventory.entries|
  {
    forall k, r :: 0 <= k < |probes| && r in inventory.required ==>
      SettledFor(r, inventory.entries[k], probes[k].tls, matches)
  }

  ghost predicate NothingApplies(inventory: Inventory) {
    && inventory.entries != []
    && forall k, r :: 0 <= k < |inventory.entries| && r in inventory.required ==> r in inventory.entries[k].notApplicable
  }

  ghost predicate Analyzed(analyses: seq<EntryAnalysis>, inventory: Inventory, probes: seq<Probe>, matches: NameMatch)
  {
    && |analyses| == |inventory.entries| == |probes|
    && forall k :: 0 <= k < |analyses| ==>
         AnalysisOf(analyses[k], k, inventory.entries[k], inventory.required, probes[k], matches)
  }

  lemma LackingMeansUnsettled(analyses: seq<EntryAnalysis>, inventory: Inventory, probes: seq<Probe>, matches: NameMatch)
    requires Analyzed(analyses, inventory, probes, matches)
    ensures (exists k, i :: Lacking(analyses, inventory.required, k, i)) <==> !AllSettled(inventory, probes, matches)
  {
    if exists k, i :: Lacking(analyses, inventory.required, k, i) {
      var k, i :| Lacking(analyses, inventory.required, k, i);
      assert AnalysisOf(analyses[k], k, inventory.entries[k], inventory.required, probes[k], matches);
      assert ObservedFor(analyses[k].observations[i], k, inventory.required[i], inventory.entries[k], probes[k].tls, matches);
      ObservationTells(inventory.required[i], inventory.entries[k], probes[k].tls, matches);
    }
    if !AllSettled(inventory, probes, matches) {
      var k, r :| 0 <= k < |probes| && r in inventory.required && !SettledFor(r, inventory.entries[k], probes[k].tls, matches);
      var i :| 0 <= i < |inventory.required| && inventory.required[i] == r;
      assert AnalysisOf(analyses[k], k, inventory.entries[k], inventory.required, probes[k], matches);
      assert ObservedFor(analyses[k].observations[i], k, r, inventory.entries[k], probes[k].tls, matches);
      ObservationTells(r, inventory.entries[k], probes[k].tls, matches);
      assert Lacking(analyses, inventory.required, k, i);
    }
  }

  lemma WaivedEntry(a: EntryAnalysis, k: nat, entry: InventoryEntry, required: seq<Requirement>, probe: Probe, matches: NameMatch)
    requires AnalysisOf(a, k, entry, required, probe, matches)
    ensures Waived(a, required) <==> forall r :: r in required ==> r in entry.notApplicable
  {
    forall i | 0 <= i < |required|
      ensures a.observations[i].requirement == required[i] && (a.observations[i].state.NotApplicable? <==> required[i] in entry.notApplicable)
    {
      assert ObservedFor(a.observations[i], k, required[i], entry, probe.tls, matches);
      ObservationTells(required[i], entry, probe.tls, matches);
    }
  }

  lemma WaivedMeansNothingApplies(analyses: seq<EntryAnalysis>, inventory: Inventory, probes: seq<Probe>, matches: NameMatch)
    requires Analyzed(analyses, inventory, probes, matches)
    ensures AllWaived(analyses, inventory.required) <==> NothingApplies(inventory)
  {
    forall k | 0 <= k < |analyses|
      ensures Waived(analyses[k], inventory.required) <==>
        forall r :: r in inventory.required ==> r in inventory.entries[k].notApplicable
    {
      WaivedEntry(analyses[k], k, inventory.entries[k], inventory.required, probes[k], matches);
    }
  }

  /** The record of a probed inventory: it passes exactly when the inventory is verified, it is not applicable exactly
      when a sound inventory is waived altogether, it fails exactly when a finding speaks against a required dimension,
      and its completeness flags are true. */
  ghost predicate RecordOf(record: ControlRecord, inventory: Inventory, probes: seq<Probe>, matches: NameMatch, dimensions: Dimensions)
    requires |probes| == |inventory.entries|
  {
    && record.controlId == "external.tls_inventory"
    && (record.status.NativePass? <==> Verified(inventory, probes, matches, dimensions))
    && (record.status.NativeNotApplicable? <==> Sound(inventory, probes, matches, dimensions) && NothingApplies(inventory))
    && (record.status.NativeFail? <==>
          exists k :: 0 <= k < |probes| && SomeRequired(probes[k].findings, inventory.required, dimensions))
    && OptionalBool(record.metadata, "inventory_complete") == Some(inventory.declaredComplete)
    && OptionalBool(record.metadata, "observations_complete") == Some(AllSettled(inventory, probes, matches))
  }

  /** The last steps, once the entries have been analysed. */
  method ConcludeInventory(inventory: Inventory, analyses: seq<EntryAnalysis>, findings: seq<Finding>,
                           ghost probes: seq<Probe>, ghost matches: NameMatch, dimensions: Dimensions)
    returns (record: ControlRecord, references: seq<string>)
    requires Analyzed(analyses, inventory, probes, matches)
    requires forall f :: f in findings <==> exists k :: 0 <= k < |probes| && f in probes[k].findings
    ensures RecordOf(record, inventory, probes, matches, dimensions)
    ensures Increasing(references)
    ensures forall r :: r in references <==> exists k, i :: ReferenceAt(analyses, k, i, r)
  {
    LackingMeansUnsettled(analyses, inventory, probes, matches);
    WaivedMeansNothingApplies(analyses, inventory, probes, matches);
    var complete, missing := ObservationCompleteness(inventory.required, analyses);
    record, references := InventoryControlAssessment(
      inventory.declaredComplete, inventory.required, analyses, findings, missing, complete, dimensions);
    GatheredTell(findings, probes, inventory.required, dimensions);
  }

  lemma GatheredTell(findings: seq<Finding>, probes: seq<Probe>, required: seq<Requirement>, dimensions: Dimensions)
    requires forall f :: f in findings <==> exists k :: 0 <= k < |probes| && f in probes[k].findings
    ensures SomeRequired(findings, required, dimensions) <==>
              exists k :: 0 <= k < |probes| && SomeRequired(probes[k].findings, required, dimensions)
    ensures OnlyOptional(findings, required, dimensions) <==>
              forall k :: 0 <= k < |probes| ==> OnlyOptional(probes[k].findings, required, dimensions)
  {
  }

  /** The reference names a fact of a probe attempt that some required dimension of its entry rests on. */
  ghost predicate Cited(x: string, inventory: Inventory, probes: seq<Probe>) {
    exists k: nat, i: nat ::
      k < |probes| == |inventory.entries| && i < |inventory.required|
      && Cites(x, k, inventory.required[i], inventory.entries[k], probes[k].tls)
  }

  lemma ReferencesPoint(references: seq<string>, analyses: seq<EntryAnalysis>, inventory: Inventory, probes: seq<Probe>,
                        matches: NameMatch)
    requires Analyzed(analyses, inventory, probes, matches)
    requires forall r :: r in references <==> exists k, i :: ReferenceAt(analyses, k, i, r)
    ensures forall x :: x in references <==> Cited(x, inventory, probes)
  {
    forall x, k, i | 0 <= k < |analyses| && 0 <= i < |analyses[k].observations|
      ensures i < |inventory.required|
      ensures x in analyses[k].observations[i].refs
        <==> Cites(x, k, inventory.required[i], inventory.entries[k], probes[k].tls)
    {
      assert AnalysisOf(analyses[k], k, inventory.entries[k], inventory.required, probes[k], matches);
      assert ObservedFor(analyses[k].observations[i], k, inventory.required[i], inventory.entries[k], probes[k].tls, matches);
    }
    forall x ensures x in references <==> Cited(x, inventory, probes) {
      if x in references {
        var k, i :| ReferenceAt(analyses, k, i, x);
        assert Cites(x, k, inventory.required[i], inventory.entries[k], probes[k].tls);
      }
      if Cited(x, inventory, probes) {
        var k: nat, i: nat :| k < |probes| && i < |inventory.required|
          && Cites(x, k, inventory.required[i], inventory.entries[k], probes[k].tls);
        assert AnalysisOf(analyses[k], k, inventory.entries[k], inventory.required, probes[k], matches);
        assert ReferenceAt(analyses, k, i, x);
      }
    }
  }

  /**
   * Probing a whole inventory. The references in the record are exactly the TLS facts of the attempts that the required
   * dimensions rest on; each points at an attempt that has them.
   */
  method AnalyzeInventory(inventory: Inventory, probes: seq<Probe>, matches: NameMatch, dimensions: Dimensions)
    returns (record: ControlRecord, references: seq<string>, attempts: seq<Option<TlsInfo>>)
    requires |probes| == |inventory.entries|
    ensures RecordOf(record, inventory, probes, matches, dimensions)
    ensures |attempts| == |probes| && forall k :: 0 <= k < |attempts| ==> attempts[k] == probes[k].tls
    ensures Increasing(references)
    ensures forall x :: x in references <==> Cited(x, inventory, probes)
    ensures forall x :: x in references ==> exists k: nat :: k < |attempts| && attempts[k].Some? && RefersTo(x, k)
  {
    var analyses, findings;
    analyses, attempts, findings := AnalyzeEntries(inventory, probes, matches);
    record, references := ConcludeInventory(inventory, analyses, findings, probes, matches, dimensions);
    ReferencesPoint(references, analyses, inventory, probes, matches);
    CitedIsAttempted(references, inventory, probes, attempts);
  }

  lemma CitedIsAttempted(references: seq<string>, inventory: Inventory, probes: seq<Probe>, attempts: seq<Option<TlsInfo>>)
    requires |attempts| == |probes| == |inventory.entries| && forall k :: 0 <= k < |attempts| ==> attempts[k] == probes[k].tls
    requires forall x :: x in references ==> Cited(x, inventory, probes)
    ensures forall x :: x in references ==> exists k: nat :: k < |attempts| && attempts[k].Some? && RefersTo(x, k)
  {
    forall x | x in references ensures exists k: nat :: k < |attempts| && attempts[k].Some? && RefersTo(x, k) {
      var k: nat, i: nat :| k < |probes| && i < |inventory.required|
        && Cites(x, k, inventory.required[i], inventory.entries[k], probes[k].tls);
      assert attempts[k].Some? && RefersTo(x, k);
    }
  }
}
