/**
 USB locations on macOS: the port walk of resolve_device_location and build_location_string in
 src/monitor_darwin.c.  What the registry says about each service on the way to the root is an input.
 */
module Location {
  import opened CStrings
  import opened Wrappers

  const MAX_DEPTH: nat := 16
  const BUFFER_SIZE: nat := 256

  // ---------- what the code computes ----------

  /** The ports met on the way, leaf to root; not every service has one. */
  function Ports(services: seq<Option<Byte>>): (ports: seq<Byte>)
    ensures |ports| <= |services|
  {
    if services == [] then []
    else Ports(services[..|services| - 1])
         + match services[|services| - 1] case Some(port) => [port] case None => []
  }

  function Reversed(s: seq<Byte>): (r: seq<Byte>)
    ensures |r| == |s| && forall i :: 0 <= i < |r| ==> r[i] == s[|s| - 1 - i]
  {
    if s == [] then [] else Reversed(s[1..]) + [s[0]]
  }

  /** Controller and ports from the root to the leaf, if the device has a location. */
  function Chain(services: seq<Option<Byte>>, controller: Byte): Option<seq<Byte>>
  {
    var ports := Ports(services);
    if ports == [] || MAX_DEPTH <= |ports| || controller == 0 then None else Some([controller] + Reversed(ports))
  }

  predicate IsDigit(c: char) { '0' <= c <= '9' }

  predicate AllDigits(s: string)
  {
    forall i :: 0 <= i < |s| ==> IsDigit(s[i])
  }

  /** %hhu. */
  function Decimal(n: nat): (s: string)
    ensures 1 <= |s| && AllDigits(s)
    ensures n < 10 ==> |s| == 1
    ensures n < 100 ==> |s| <= 2
    ensures n < 1000 ==> |s| <= 3
  {
    if n < 10 then ["0123456789"[n]] else Decimal(n / 10) + ["0123456789"[n % 10]]
  }

  function Fields(ports: seq<Byte>): (s: string)
    ensures |s| <= 4 * |ports|
  {
    if ports == [] then "" else "-" + Decimal(ports[0]) + Fields(ports[1..])
  }

  /** The location string. */
  function Text(ports: seq<Byte>): (s: string)
    ensures |s| <= 3 + 4 * |ports|
  {
    "usb" + Fields(ports)
  }

  // ---------- reading it back ----------

  function Value(digits: string): nat
  {
    if digits == "" then 0
    else
      var c := digits[|digits| - 1];
      10 * Value(digits[..|digits| - 1]) + if IsDigit(c) then c as int - '0' as int else 0
  }

  /** How many digits s begins with. */
  function Run(s: string): (n: nat)
    ensures n <= |s|
  {
    if s == "" || !IsDigit(s[0]) then 0 else 1 + Run(s[1..])
  }

  function Parse(s: string): seq<nat>
    decreases |s|
  {
    if s == "" || s[0] != '-' then []
    else
      var n := Run(s[1..]);
      [Value(s[1..1 + n])] + Parse(s[1 + n..])
  }

  lemma {:induction false} DecimalRoundTrip(n: nat)
    ensures Value(Decimal(n)) == n
  {
    var s := Decimal(n);
    if n < 10 {
      assert s[..0] == "" && Value(s[..0]) == 0;
    } else {
      DecimalRoundTrip(n / 10);
      assert s[..|s| - 1] == Decimal(n / 10);
    }
  }

  lemma {:induction false} RunOfDigits(digits: string, rest: string)
    requires AllDigits(digits) && (rest == "" || rest[0] == '-')
    ensures Run(digits + rest) == |digits|
    decreases |digits|
  {
    if digits == "" {
      assert digits + rest == rest;
    } else {
      assert (digits + rest)[1..] == digits[1..] + rest;
      RunOfDigits(digits[1..], rest);
    }
  }

  lemma FirstField(s: string, digits: string, rest: string)
    requires s == "-" + digits + rest && AllDigits(digits) && (rest == "" || rest[0] == '-')
    ensures Parse(s) == [Value(digits)] + Parse(rest)
  {
    assert s[1..] == digits + rest;
    RunOfDigits(digits, rest);
    assert s[1..1 + |digits|] == digits && s[1 + |digits|..] == rest;
  }

  /** Reading the fields gives back every port, however many digits each has. */
  lemma {:induction false} FieldsRoundTrip(ports: seq<Byte>)
    ensures |Parse(Fields(ports))| == |ports|
    ensures forall i :: 0 <= i < |ports| ==> Parse(Fields(ports))[i] == ports[i]
    decreases |ports|
  {
    if ports != [] {
      FirstField(Fields(ports), Decimal(ports[0]), Fields(ports[1..]));
      DecimalRoundTrip(ports[0]);
      FieldsRoundTrip(ports[1..]);
    }
  }

  /** Different chains have different strings. */
  lemma TextIsInjective(a: seq<Byte>, b: seq<Byte>)
    requires Text(a) == Text(b)
    ensures a == b
  {
    assert Text(a)[3..] == Fields(a) && Text(b)[3..] == Fields(b);
    FieldsRoundTrip(a);
    FieldsRoundTrip(b);
  }

  /** So the string determines the controller and every port of the walk. */
  lemma LocationDetermines(s1: seq<Option<Byte>>, c1: Byte, s2: seq<Option<Byte>>, c2: Byte)
    requires Chain(s1, c1).Some? && Chain(s2, c2).Some?
    requires Text(Chain(s1, c1).value) == Text(Chain(s2, c2).value)
    ensures c1 == c2 && Ports(s1) == Ports(s2)
  {
    var a, b := Chain(s1, c1).value, Chain(s2, c2).value;
    TextIsInjective(a, b);
    ReversedIsInjective(Ports(s1), Ports(s2), c1, c2);
  }

  lemma ReversedIsInjective(p: seq<Byte>, q: seq<Byte>, c: Byte, d: Byte)
    requires [c] + Reversed(p) == [d] + Reversed(q)
    ensures c == d && p == q
  {
    var r := [c] + Reversed(p);
    assert r[0] == c && r[0] == d && r[1..] == Reversed(p) && r[1..] == Reversed(q);
    forall i | 0 <= i < |p| ensures p[i] == q[i] {
      assert Reversed(p)[|p| - 1 - i] == Reversed(q)[|p| - 1 - i];
    }
  }

  // ---------- what the string says ----------

  /** How many of the services have a port. */
  function Count(services: seq<Option<Byte>>): nat
  {
    if services == [] then 0 else (if services[0].Some? then 1 else 0) + Count(services[1..])
  }

  lemma {:induction false} CountConcat(a: seq<Option<Byte>>, b: seq<Option<Byte>>)
    ensures Count(a + b) == Count(a) + Count(b)
    decreases |a|
  {
    if a == [] {
      assert a + b == b;
    } else {
      assert (a + b)[1..] == a[1..] + b;
      CountConcat(a[1..], b);
    }
  }

  lemma CountOne(service: Option<Byte>)
    ensures Count([service]) == if service.Some? then 1 else 0
  {
    assert [service][1..] == [];
  }

  lemma {:induction false} PortsAreCounted(services: seq<Option<Byte>>)
    ensures |Ports(services)| == Count(services)
    decreases |services|
  {
    if services != [] {
      var n := |services| - 1;
      PortsAreCounted(services[..n]);
      CountConcat(services[..n], [services[n]]);
      CountOne(services[n]);
      assert services == services[..n] + [services[n]];
    }
  }

  /** Every port is there, behind those of the services before it. */
  lemma {:induction false} PortAt(services: seq<Option<Byte>>, k: nat)
    requires k < |services| && services[k].Some?
    ensures Count(services[..k]) < |Ports(services)| && Ports(services)[Count(services[..k])] == services[k].value
    decreases |services|
  {
    var n := |services| - 1;
    PortsAreCounted(services[..n]);
    if k < n {
      PortAt(services[..n], k);
      assert services[..n][..k] == services[..k];
    }
  }

  lemma CountFrom(services: seq<Option<Byte>>, k: nat)
    requires k <= |services|
    ensures Count(services) == Count(services[..k]) + Count(services[k..])
  {
    assert services == services[..k] + services[k..];
    CountConcat(services[..k], services[k..]);
  }

  lemma BehindController(controller: Byte, ports: seq<Byte>, i: nat, n: nat)
    requires i < |ports| && n == |ports| - i
    ensures ([controller] + Reversed(ports))[n] == ports[i]
  {
    assert ([controller] + Reversed(ports))[n] == Reversed(ports)[n - 1];
  }

  /** Turned around behind the controller, it is where the number of ports from it to the root says. */
  lemma PortFromRoot(services: seq<Option<Byte>>, controller: Byte, k: nat)
    requires k < |services| && services[k].Some?
    ensures 1 <= Count(services[k..]) <= Count(services) == |Ports(services)|
    ensures ([controller] + Reversed(Ports(services)))[Count(services[k..])] == services[k].value
  {
    PortsAreCounted(services);
    PortAt(services, k);
    CountFrom(services, k);
    BehindController(controller, Ports(services), Count(services[..k]), Count(services[k..]));
  }

  /** A location exists exactly for 1 to 15 ports and a known controller. */
  lemma LocatedExactlyIf(services: seq<Option<Byte>>, controller: Byte)
    ensures Chain(services, controller).Some? <==> 1 <= Count(services) <= 15 && controller != 0
  {
    PortsAreCounted(services);
  }

  /**
   The string reads "usb", then the controller, then the ports from the root on: a port with n ports
   from it to the root, itself included, is in field n.
   */
  lemma LocationReads(services: seq<Option<Byte>>, controller: Byte)
    requires Chain(services, controller).Some?
    ensures var text := Text(Chain(services, controller).value);
            && "usb" <= text
            && var fields := Parse(text[3..]);
               && |fields| == 1 + Count(services) && fields[0] == controller
               && forall k :: 0 <= k < |services| && services[k].Some? ==>
                    1 <= Count(services[k..]) <= Count(services) && fields[Count(services[k..])] == services[k].value
  {
    var chain, ports := Chain(services, controller).value, Ports(services);
    FieldsRoundTrip(chain);
    PortsAreCounted(services);
    assert Text(chain)[3..] == Fields(chain);
    forall k | 0 <= k < |services| && services[k].Some?
      ensures 1 <= Count(services[k..]) <= Count(services)
      ensures Parse(Fields(chain))[Count(services[k..])] == services[k].value
    {
      PortFromRoot(services, controller, k);
    }
  }

  lemma ReversedSnoc(s: seq<Byte>, x: Byte)
    ensures Reversed(s + [x]) == [x] + Reversed(s)
  {
  }

  lemma {:induction false} FieldsSnoc(ports: seq<Byte>, port: Byte)
    ensures Fields(ports + [port]) == Fields(ports) + ("-" + Decimal(port))
    decreases |ports|
  {
    if ports == [] {
      assert ports + [port] == [port] && Fields([port][1..]) == "";
    } else {
      assert (ports + [port])[1..] == ports[1..] + [port];
      FieldsSnoc(ports[1..], port);
    }
  }

  // ---------- the code ----------

  /** The loop over the services; full is its early exit. */
  method CollectPorts(services: seq<Option<Byte>>, ports: array<Byte>) returns (depth: nat, full: bool)
    requires services != [] && ports.Length == MAX_DEPTH
    modifies ports
    ensures full <==> MAX_DEPTH <= |Ports(services)|
    ensures !full ==> depth < MAX_DEPTH && ports[..depth] == Ports(services)
  {
    depth, full := 0, false;
    var k := 0;
    while k < |services|
      invariant k <= |services| && depth < MAX_DEPTH
      invariant ports[..depth] == Ports(services[..k])
    {
      assert services[..k + 1][..k] == services[..k];
      match services[k] {
        case Some(port) =>
          ports[depth] := port;
          depth := depth + 1;
        case None =>
      }
      k := k + 1;
      if depth == ports.Length {
        PortsGrow(services, k);
        return depth, true;
      }
    }
    assert services[..k] == services;
  }

  lemma {:induction false} PortsGrow(services: seq<Option<Byte>>, k: nat)
    requires k <= |services|
    ensures |Ports(services[..k])| <= |Ports(services)|
    decreases |services| - k
  {
    if k == |services| {
      assert services[..k] == services;
    } else {
      assert services[..k + 1][..k] == services[..k];
      PortsGrow(services, k + 1);
    }
  }

  method ReverseInPlace(ports: array<Byte>, depth: nat)
    requires depth <= ports.Length
    modifies ports
    ensures ports[..depth] == Reversed(old(ports[..depth]))
  {
    for i := 0 to depth / 2
      invariant forall k :: 0 <= k < i ==>
        ports[k] == old(ports[depth - 1 - k]) && ports[depth - 1 - k] == old(ports[k])
      invariant forall k :: i <= k < depth - i ==> ports[k] == old(ports[k])
    {
      var tmp := ports[i];
      ports[i] := ports[depth - i - 1];
      ports[depth - i - 1] := tmp;
    }
  }

  /** One turn of the loop that builds the string: snprintf at ptr, with size bytes left. */
  method AppendPort(buf: array<char>, ptr: nat, size: nat, port: Byte, ghost before: seq<Byte>) returns (r: nat)
    requires ptr + size == buf.Length && 5 <= size && buf[..ptr] == Text(before)
    modifies buf
    ensures 2 <= r < size && r <= 4 && buf[..ptr + r] == Text(before + [port])
  {
    var field := "-" + Decimal(port);
    r := |field|;
    FieldsSnoc(before, port);
    var end := Write(buf, ptr, field);
    buf[end] := '\0';
    assert "usb" + Fields(before) + field == "usb" + (Fields(before) + field);
  }

  /** Neither the snprintf assertion nor the buffer bounds can fail. */
  method BuildLocationString(ports: array<Byte>, depth: nat) returns (location: string)
    requires ports.Length == MAX_DEPTH && depth <= MAX_DEPTH
    ensures location == Text(ports[..depth])
  {
    var buf := new char[BUFFER_SIZE];
    var ptr := Write(buf, 0, "usb");
    var size := BUFFER_SIZE - ptr;
    assert Fields(ports[..0]) == "";
    for i := 0 to depth
      invariant ptr + size == BUFFER_SIZE && 0 <= ptr <= 3 + 4 * i
      invariant buf[..ptr] == Text(ports[..i])
    {
      var r := AppendPort(buf, ptr, size, ports[i], ports[..i]);
      assert ports[..i + 1] == ports[..i] + [ports[i]];
      ptr := ptr + r;
      size := size - r;
    }
    location := buf[..ptr];
  }

  /** The controller goes behind the ports, and the whole chain is turned around. */
  method RootToLeaf(ports: array<Byte>, depth: nat, controller: Byte, ghost walked: seq<Byte>) returns (newDepth: nat)
    requires depth < ports.Length && ports[..depth] == walked
    modifies ports
    ensures newDepth == depth + 1 && ports[..newDepth] == [controller] + Reversed(walked)
  {
    ports[depth] := controller;
    newDepth := depth + 1;
    assert ports[..newDepth] == walked + [controller];
    ReverseInPlace(ports, newDepth);
    ReversedSnoc(walked, controller);
  }

  method ResolveDeviceLocation(services: seq<Option<Byte>>, controller: Byte) returns (r: int, location: string)
    requires services != []
    ensures r == if 1 <= Count(services) <= 15 && controller != 0 then 1 else 0
    ensures r == 1 <==> Chain(services, controller).Some?
    ensures r == 1 ==> location == Text(Chain(services, controller).value)
  {
    location := "";
    LocatedExactlyIf(services, controller);
    var ports := new Byte[MAX_DEPTH];
    var depth, full := CollectPorts(services, ports);
    if full || depth == 0 || controller == 0 {
      return 0, "";
    }
    depth := RootToLeaf(ports, depth, controller, Ports(services));
    location := BuildLocationString(ports, depth);
    r := 1;
  }
}
