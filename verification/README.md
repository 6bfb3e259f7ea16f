# A verified model of the GAP gateway software

GAP is a gateway board: a BeagleBone with a Bluetooth co-processor and other radios on one SPI
bus, and a tunnel server that routes IPv6 packets to connected gateways. This project models the
parts of it whose correctness is spread over several functions, and proves what they are for.

**The Bluetooth link** (`EventQueue`, `Frame`, `SpiSlave`, `HostDriver`, `Link`, `Delivery`,
`Requests`, `SplitLink`, `SplitDelivery`, `LinkMachine`). The firmware puts advertisements into a
four-slot ring buffer, stages one frame in its SPI transmit buffer and raises a pin. The kernel
driver reacts to the pin's edge, claims the SPI, exchanges 40 bytes, copies the frame it finds to
a one-frame user buffer, releases the SPI and looks at the pin again. `Link` interleaves radio,
bus, interrupts, completions, ioctls and reads in any order. Proved for every run: one SPI owner
at a time; no wake-up lost although interrupts that find the SPI busy are dropped; every schedule
of the driver drains the firmware within a stated number of steps; the bus delivers in order and
without gaps; what `read()` returns is a frame of an accepted advertisement, never an older one
than before, each received frame at most once. The classes `Queue`, `Coprocessor` and `Device` do
all this in place on their buffers, and `LinkMachine` shows that together they take exactly the
steps of `Link`. `SplitLink` cuts the transfer in two, so that events can come between its bytes
and the firmware's handler: ownership, wake-ups and draining survive. Delivery survives for all
events but those accepted into an idle buffer in such a gap, and `SplitDelivery` proves which of
these get through: an event is carried, and once everything has run reaches the user buffer, if
and only if it is not of that kind or a transfer crosses before the next event is accepted.

**The shared bus** (`GapSpi`, `SharedBus`, `SharedMachine`). Messages carry a chip-select index
from which the demultiplexer pins are set. With distinct indices that the pins can express, what
each radio and its driver go through is a run of one link alone, so everything proved about one
link holds for each radio; no user reads another radio's report. `SharedMachine` joins the bus
class with the classes of all the links, which share no object.

**The tunnel server** (`Ipv6`, `RoutingTable`, `TunnelRuns`, `TunnelPackets`, `TunnelMachine`,
`EventLoop`, `Descriptors`). The table is a cache, indexed by descriptor, over traffic and an
assignment file. The masked byte tests are shown to be tests of 52, 62 and 64 leading bits;
reloading is a last-writer fold; every entry holds the first link-local source of its descriptor's
present connection; and it is shown exactly when routing through the cache agrees with the file as
it is now. The edge-triggered event loop comes to rest within a stated number of steps after
anything has happened, and what is readable then is exactly what it has turned away from:
descriptors reported with an error flag, and the listening socket when there was no descriptor for
the next connection. `Descriptors` accounts for every byte and every descriptor number.

**Firmware start-up and parsing** (`AdvReport`, `ScanStart`): the advertising data scanner, with
the exact condition under which it stays inside a report of arbitrary bytes, and the scan start
that waits for flash operations, with the exact condition under which it is lost.

Each operation exists once as a function on values (what it does to the state) and, where the
source updates state in place, as a class method proved to do just that; the theorems are about
the functions.

## Modelling decisions

- In `Link` one SPI exchange and the firmware's handler for it are one step with respect to new
  events; `SplitLink` drops that assumption and keeps only that the bytes of the next transfer do
  not cross before the handler has run.  The driver does not enforce this: it pauses only before a
  read that its own look at the pin leads to (`nrf51822.c:183`), and the claims made by an
  interrupt or an ioctl have no pause.
- A completion's copy and release are one step and its look at the pin a later one; looking at the
  pin and claiming the SPI are one step; a user's read is one step.
- `main` calls `scan_start` below the interrupt that delivers system events, so any events can
  come between its reading the count of flash operations and acting on it.  Called from that
  interrupt itself, `scan_start` is one step.
- Advertisements are 1 to 62 bytes long, the lengths for which a frame fits the firmware's
  64-byte buffer; the only caller passes 8 to 39.  What a zero-length event would do is stated
  separately (`SpiSlave.ZeroLengthEventStrandsQueue`).
- When the queue is empty the firmware arms the old frame again.  A transfer made while the pin
  is low therefore repeats the last frame, or brings zeros if there never was one.
- A transfer may be *late*: the driver's own comment explains that too short a delay after chip
  select can put a spurious zero byte first.  The model lets any transfer be late.  The comment in
  the driver says that this byte is skipped, but the copy starts at offset 0; the model follows
  the code, so a late frame reaches the user as a zero followed by the frame without its last byte.
- The driver transfers 40 bytes and never writes its receive buffer beyond them.  A 39-byte
  report makes a 41-byte frame, whose last byte is always read as zero
  (`Frame.ViewIsFrameIff`, `Frame.ViewOfPayload`).
- Headers are read from the tunnel server's buffer however few bytes the last read returned, so a
  packet is the whole buffer, with anything behind the bytes just read.
- A descriptor whose connection was reset is reported with an error flag; one whose peer has merely
  closed its side is not.  Descriptors are numbers below a limit, and `accept` fails when none is free.
- Comments and messages of the tunnel server speak of /60 blocks; the code uses 62 throughout, and
  so does the model.

## Model

| member | source | states |
|---|---|---|
| EventQueue.Queue.Add | software/nrf51822/interrupt_event_queue.c:16-34 | on the ring buffer in place: refused exactly when four events are queued, otherwise the event, cut to 64 stored bytes but with its own length, is appended; head stays (tail + count) mod 4 |
| EventQueue.Queue.Get | software/nrf51822/interrupt_event_queue.c:43-60 | removes the oldest event, returns its length and type and copies its bytes to the given place, leaving every other byte of the destination alone; an empty queue changes nothing |
| Frame.DecodeOfStaged | software/driver/nrf51822/nrf51822.c:200-229 | whatever stale bytes follow the frame in the transmit buffer, and late or not, the driver's decoding yields the view of the staged event |
| Frame.StagedOfEncode | software/nrf51822/bcp_spi_slave.c:35-39 | the frame the firmware writes reads back by its own length byte as the same event |
| Frame.ViewIsFrameIff | software/driver/nrf51822/nrf51822.c:270-272 | the user gets the frame unchanged if and only if the transfer was not late and every payload byte beyond the 38th is zero |
| Frame.ViewOfPayload | software/driver/nrf51822/nrf51822.c:213-229 | up to 38 payload bytes arrive whole, of 39 the last reads as zero, and a late frame arrives as a zero and the frame without its last byte |
| SpiSlave.AddPushes | software/nrf51822/interrupt_event_queue.c:21-40 | queue and staging buffer together are a FIFO of capacity five: an event is refused exactly when five frames are pending, else it is pushed; pin high iff a frame is staged is kept |
| SpiSlave.TransferPops | software/nrf51822/bcp_spi_slave.c:84-126 | a finished transfer pops exactly the staged frame, stages the next and keeps the pin truthful; with nothing staged nothing changes |
| SpiSlave.QueueStrandedIff | software/nrf51822/bcp_spi_slave.c:91-125 | in any state, a transfer leaves the pin low with an event still queued if and only if the oldest queued event has length zero and another is behind it; the present caller passes at least eight bytes, so this never happens through it |
| SpiSlave.ZeroLengthEventStrandsQueue | software/nrf51822/interrupt_event_queue.c:16-60 | a run from boot into that case, for any events around the empty one |
| SpiSlave.AddBeforeHandlerHarmlessIff | software/nrf51822/bcp_spi_slave.c:20-126 | an event added after the bytes crossed but before the handler ran leaves the same frames pending as one added afterwards if and only if a frame was waiting and the queue had room; into an idle buffer it is staged but no longer counted as pending |
| SpiSlave.Coprocessor.StageNext | software/nrf51822/bcp_spi_slave.c:91-99 | in place: the oldest event becomes the frame at the start of the transmit buffer, the bytes behind it stay |
| SpiSlave.Coprocessor.NotifyAdded | software/nrf51822/bcp_spi_slave.c:20-53 | in place: stages a frame and raises the pin only when no frame is waiting |
| SpiSlave.Coprocessor.AddEvent | software/nrf51822/interrupt_event_queue.c:16-41 | in place: the queue's add followed by the notification |
| SpiSlave.Coprocessor.OnAdvertisement | software/nrf51822/main.c:389-392 | an advertisement is queued only once advertisements have been asked for |
| SpiSlave.Coprocessor.OnTransferDone | software/nrf51822/bcp_spi_slave.c:57-130 | in place: takes the command from the receive buffer, stages the next event or re-arms the old buffer, and sets pin and full flag to match |
| HostDriver.Device.StartReadIrq | software/driver/nrf51822/nrf51822.c:244-298 | claims the SPI, fills in command and completion and submits one message, or does nothing if the SPI is taken |
| HostDriver.Device.RecheckPin | software/driver/nrf51822/nrf51822.c:175-187 | starts a read exactly when the pin is high and the SPI free |
| HostDriver.Device.IssueSimpleCommand | software/driver/nrf51822/nrf51822.c:349-386 | submits the user's command byte or reports busy and changes nothing |
| HostDriver.Device.CopyToUser | software/driver/nrf51822/nrf51822.c:213-228 | copies the given number of bytes to the start of the user buffer, leaves the bytes behind them and sets the length |
| HostDriver.Device.OnReadIrqDone | software/driver/nrf51822/nrf51822.c:191-234 | copies a valid frame by the length byte the code picks, ignores two zero bytes, and releases the SPI in either case |
| HostDriver.Device.OnCommandDone | software/driver/nrf51822/nrf51822.c:302-336 | does to the device what the other completion does, and reports whether data was valid |
| HostDriver.Device.ReadToUser | software/driver/nrf51822/nrf51822.c:43-67 | returns the unread bytes and empties the buffer; a faulting copy keeps it |
| Link.OneTransferAtATime | software/driver/nrf51822/nrf51822.c:248-282 | in every run at most one transfer exists, and one exists exactly while the SPI is marked pending |
| Link.NoLostWakeup | software/driver/nrf51822/nrf51822.c:231-257 | in every run, if the pin is high an edge is latched, the SPI is claimed, or a re-check is still to run |
| Link.OwnedUntilComplete | software/driver/nrf51822/nrf51822.c:302-386 | over any actions between claim and completion the command byte and completion stay, and once received the data stays |
| Link.HostWorkDecreases | software/driver/nrf51822/nrf51822.c:175-240 | every possible driver action uses up work; a transfer with the pin high removes exactly one frame and nothing else removes any |
| Link.EveryScheduleDrains | software/driver/nrf51822/nrf51822.c:175-240 | after any run every driver schedule ends within that bound, and where it can go no further nothing is left in the firmware |
| Delivery.BusIsInOrder | software/nrf51822/bcp_spi_slave.c:57-130 | in every run each transfer carries its source event, sources go up by one when the pin was high and repeat when it was low, and the accepted events not handed over are the pending ones |
| Delivery.DrainedMeansReceived | software/driver/nrf51822/nrf51822.c:175-240 | once any driver schedule has run as far as it goes, every event ever accepted has been put into the user buffer |
| Delivery.ReadsReturnAcceptedEvents | software/driver/nrf51822/nrf51822.c:43-67 | in every run every non-empty read returns exactly the view of some accepted event |
| Delivery.ReadsNeverGoBack | software/driver/nrf51822/nrf51822.c:43-67 | later reads return later receptions and never an older event |
| Delivery.ReadIsFrameIff | software/driver/nrf51822/nrf51822.c:43-67 | in every run every non-empty read returns length byte, type byte and the whole of a report that was received if and only if its own transfer was not late and that report has no non-zero byte beyond its 38th |
| Delivery.ShortReportsArriveExactly | software/driver/nrf51822/nrf51822.c:222-228 | so with no late transfer and reports of at most 38 bytes every read is exact |
| Delivery.UserBufferConserves | software/driver/nrf51822/nrf51822.c:52-66 | frames received = frames returned + frames overwritten unread + the one still unread |
| Delivery.AcceptedIff | software/nrf51822/main.c:389-392 | in every run the next advertisement is accepted if and only if a transfer has carried the sniff command and fewer than five frames are pending |
| Delivery.NothingUnasked | software/nrf51822/main.c:187-190 | in a run without the sniff command no event is ever accepted |
| Requests.TransfersCarryRequests | software/driver/nrf51822/nrf51822.c:244-386 | in every run the command bytes the transfers carried, with that of the one still waiting for the bus, are exactly the bytes of the requests that found the SPI free, each once and in order: the user's for an ioctl, 1 for an interrupt with an edge latched or a look at a high pin |
| Requests.RequestCrosses | software/driver/nrf51822/nrf51822.c:244-386 | whatever comes between such a request and the next transfer, that transfer carries its byte, and the radio sniffs afterwards if and only if it did before or the byte is 2 |
| Requests.CommandCrosses | software/driver/nrf51822/nrf51822.c:349-386 | an ioctl made while the SPI is free is the next byte the radio gets, and 2 turns advertisements on, whatever commands went before |
| LinkMachine.Machine.OnAdvert | software/nrf51822/main.c:380-395 | the classes take exactly the step of the link, latching the rising edge |
| LinkMachine.Machine.OnTransfer | software/nrf51822/bcp_spi_slave.c:57-130 | 40 bytes cross each way in place and the firmware's handler runs: exactly the link's transfer |
| LinkMachine.Machine.OnComplete | software/driver/nrf51822/nrf51822.c:191-240 | the completion the message names runs: exactly the link's completion |
| LinkMachine.Machine.OnRecheck | software/driver/nrf51822/nrf51822.c:175-187 | exactly the link's re-check |
| LinkMachine.Machine.OnInterrupt | software/driver/nrf51822/nrf51822.c:290-298 | exactly the link's interrupt |
| LinkMachine.Machine.OnCommand | software/driver/nrf51822/nrf51822.c:349-386 | exactly the link's command, reported busy if and only if the SPI is taken |
| LinkMachine.Machine.OnRead | software/driver/nrf51822/nrf51822.c:43-67 | exactly the link's read, returning its bytes |
| SplitLink.CrossThenHandleIsTransfer | software/nrf51822/bcp_spi_slave.c:56-130 | with nothing in between, crossing and handling are the one-step transfer of the link |
| SplitLink.SplitRunKeepsControl | software/driver/nrf51822/nrf51822.c:231-257 | with any events between a transfer's bytes and its handler, the SPI still has one owner at most and no wake-up is lost, in every run |
| SplitLink.SplitBusIsInOrder | software/nrf51822/bcp_spi_slave.c:20-130 | in every run with gaps each transfer carries its source event, sources never go back, and every event that left the queue was carried, or is the frame that waits, or had been accepted into an idle buffer during a gap; `SplitDelivery.CarriedIff` says which of the last kind were carried |
| SplitLink.SplitReadsReturnAcceptedEvents | software/driver/nrf51822/nrf51822.c:43-67 | in every run with gaps every non-empty read still returns the view of an accepted event |
| SplitLink.SplitReadsNeverGoBack | software/driver/nrf51822/nrf51822.c:43-67 | and later reads never return an older event |
| SplitDelivery.CarriedIff | software/nrf51822/bcp_spi_slave.c:20-130 | in every run with gaps, an event that no longer waits to be sent was carried by a transfer if and only if it was not accepted into an idle buffer during a gap or a transfer crossed before the next event was accepted |
| SplitDelivery.SplitDrainedReceivedIff | software/driver/nrf51822/nrf51822.c:175-240 | once any schedule of driver and handler has run as far as it goes after any run with gaps, an accepted event has been put into the user buffer if and only if that condition holds of it |
| SplitLink.ExposedEventIsLost | software/nrf51822/bcp_spi_slave.c:20-126 | a run in which such an event is accepted and, whatever follows, never carried |
| SplitLink.EverySplitScheduleDrains | software/driver/nrf51822/nrf51822.c:175-240 | after any run with gaps every schedule of driver and handler ends within the work left, with the firmware empty, the pin low and the SPI free |
| GapSpi.BitsSelect | software/driver/gapspi/gapspi.c:38-48 | pins set from the bits of any id, negative ones included, form the number id mod 2^n |
| GapSpi.Bus.SetMux | software/driver/gapspi/gapspi.c:38-48 | the loop over the pins, in place, selects output id mod 2^n |
| GapSpi.Bus.SubmitAsync | software/driver/gapspi/gapspi.c:50-56 | the device index is saved in the message, which joins the end of the queue |
| GapSpi.Bus.TransferOne | software/driver/gapspi/gapspi.c:76-85 | the oldest message is taken and the pins select the output its own index names |
| GapSpi.OwnOutputIff | software/driver/gapspi/gapspi.c:41-47 | an index selects the output of the same number if and only if the pins can express it |
| SharedBus.AddressedHomeIff | software/driver/gapspi/gapspi.c:76-85 | every radio is addressed by its own messages if and only if the indices are distinct and below 2^n |
| SharedBus.TransferStaysHome | software/driver/gapspi/gapspi.c:76-85 | a bus transfer is a transfer of the submitting radio's own link and touches no other radio |
| SharedBus.RadiosAreIsolated | software/driver/gapspi/gapspi.c:50-85 | for every interleaving each radio ends where a run of a single link made of its own actions ends |
| SharedBus.EveryRadioKeepsControl | software/driver/nrf51822/nrf51822.c:428-466 | on a shared bus every radio keeps exclusive ownership and loses no wake-up |
| SharedBus.UsersSeeOwnReports | software/driver/nrf51822/nrf51822.c:43-67 | what is readable at a radio's device is a report that this radio received |
| SharedMachine.Gateway.OnLocal | software/driver/gapspi/gapspi.c:50-56 | bus class and link classes take exactly the shared system's step: the link's own code runs, and its message joins the queue if the driver claimed the SPI |
| SharedMachine.Gateway.OnBusTransfer | software/driver/gapspi/gapspi.c:76-85 | exactly the shared system's step: the pins select the submitter's radio, and that link's own code exchanges the bytes |
| Ipv6.Same52IsExact | gateway/tunnel/tunnel-server.c:613-614 | the byte test equals equality of the 128-bit addresses divided by 2^76 |
| Ipv6.Same62IsExact | gateway/tunnel/tunnel-server.c:622-624 | the byte test equals equality of the addresses divided by 2^66 |
| Ipv6.Same64IsExact | gateway/tunnel/tunnel-server.c:651-651 | the byte test equals equality of the addresses divided by 2^64 |
| Ipv6.SameInterfaceIsExact | gateway/tunnel/tunnel-server.c:669-669 | the byte test equals equality of the addresses modulo 2^64 |
| Ipv6.IsLinkLocalIsExact | gateway/tunnel/tunnel-server.c:703-704 | the byte test holds if and only if the first 16 bits of the address are the number fe80 |
| Ipv6.PrefixesNest | gateway/tunnel/tunnel-server.c:613-624 | the /62 test is an equivalence and implies the /52 test |
| RoutingTable.TunnelServer.BindLine | gateway/tunnel/tunnel-server.c:221-237 | in place: the line's block goes to the first entry with its link-local address and nowhere else |
| RoutingTable.TunnelServer.ParsePrefixes | gateway/tunnel/tunnel-server.c:163-240 | in place: all lines bound in order |
| RoutingTable.TunnelServer.FindBlock | gateway/tunnel/tunnel-server.c:621-631 | the scan stops at the lowest entry whose block covers the destination |
| RoutingTable.TunnelServer.FindInterface | gateway/tunnel/tunnel-server.c:658-675 | the scan stops at the lowest live entry with the destination's interface identifier |
| RoutingTable.TunnelServer.OnTunPacket | gateway/tunnel/tunnel-server.c:607-681 | table and destination after a TUN packet: cached block, else reload and scan again, else interface identifier, else nowhere |
| RoutingTable.TunnelServer.OnClientData | gateway/tunnel/tunnel-server.c:686-733 | learns the link-local source of an IPv6 packet only into a vacant entry, changes no other entry, and forwards the bytes read |
| RoutingTable.TunnelServer.OnClosed | gateway/tunnel/tunnel-server.c:748-760 | the descriptor's entry becomes vacant and no other changes |
| RoutingTable.ReloadIsLastWriter | gateway/tunnel/tunnel-server.c:163-240 | after a reload the lowest slot with each link-local address has the block of the last line naming it; every other slot and all link-local addresses are as before |
| RoutingTable.ReloadIsIdempotent | gateway/tunnel/tunnel-server.c:163-240 | reading the same file again changes nothing |
| TunnelRuns.EntriesRememberFirst | gateway/tunnel/tunnel-server.c:686-711 | in every run each entry is vacant, with no link-local source shown since the last close, or holds the first one shown on the present connection; block length is 0 or 62 and set only then |
| TunnelRuns.RunKeepsCacheFromFile | gateway/tunnel/tunnel-server.c:223-234 | in every run every cached block is one the file gives to that entry's client |
| TunnelRuns.RoutingAgreesIff | gateway/tunnel/tunnel-server.c:613-648 | after any run, a /52 destination goes to exactly the descriptor the file now assigns it to (the lowest whose client's last line covers it, among the lowest descriptors of their clients), or nowhere if there is none, if and only if the cache does not cover it, or the entry it hits holds its client's present block and no lower client has that block |
| TunnelRuns.RoutingAgreesIffCurrent | gateway/tunnel/tunnel-server.c:613-648 | so where no two connected clients have the same block at present, all that matters is that the entry hit holds its client's present block |
| TunnelRuns.RoutingAgreesWithFile | gateway/tunnel/tunnel-server.c:613-648 | so if clients keep their blocks and show different link-local addresses, every /52 destination goes where the file says, in every run |
| TunnelRuns.MissRestoresAgreement | gateway/tunnel/tunnel-server.c:633-648 | after any run in which clients show different link-local addresses, one /52 packet that no entry covers makes every /52 destination go where the file says, old assignments and blocks held by several clients included |
| TunnelRuns.ReassignedBlockStaysCached | gateway/tunnel/tunnel-server.c:617-631 | for any client, any two blocks and any destination in the first only, a four-event run after which the destination still goes to the client although the file has given it the second block: agreement fails |
| TunnelRuns.ConcreteReassignment | gateway/tunnel/tunnel-server.c:617-631 | such a run with every byte written out |
| TunnelRuns.InterfaceRouting | gateway/tunnel/tunnel-server.c:651-675 | in every run other local destinations go to descriptor j if and only if j is the lowest whose present connection first showed a link-local source with the same number modulo 2^64, and change nothing |
| TunnelPackets.TunPacketsGoByDestination | gateway/tunnel/tunnel-server.c:607-681 | after every run, for packets put together from any header, source, destination and payload: with version 6 and the /52's first 52 bits the packet is sent where the file assigns its destination if and only if the hit in the cache is right; with version 6 and the /64's first 64 bits or fe80 it is sent to the owner of the interface identifier; every other packet is sent nowhere, and only the first kind can change the table |
| TunnelPackets.ClientPacketsTeachSource | gateway/tunnel/tunnel-server.c:686-711 | after every run, for packets put together in the same way: an entry gets the packet's source if and only if the packet came on its descriptor, its connection has shown no link-local source yet, the upper half of the first byte is 6 whatever the lower half is, and the source starts with fe80; no other entry changes |
| TunnelMachine.Machine.Handle | gateway/tunnel/tunnel-server.c:582-761 | the class takes exactly the steps of the runs, and sends where they say |
| EventLoop.StrandedIff | gateway/tunnel/tunnel-server.c:499-600 | in every run, for every batch split and every arrival, a readable descriptor is neither going to be reported nor being dealt with if and only if the loop passed over an error event for it, or left the listening socket for want of a descriptor, when it was not ready again, and nothing has happened to it since |
| EventLoop.EveryScheduleSleeps | gateway/tunnel/tunnel-server.c:499-769 | after any run every schedule of the loop alone ends within the work left, with nothing reported or ready, and what is readable then is exactly what the loop has turned away from |
| EventLoop.SleepingMeansDrained | gateway/tunnel/tunnel-server.c:502-504 | so in a run without resets and with a descriptor for each connection nothing is readable anywhere when the wait blocks |
| EventLoop.StoppingEarlyStrandsIff | gateway/tunnel/tunnel-server.c:581-600 | leaving a descriptor after one read would strand it if and only if something is left in it and it is not ready again |
| Descriptors.OpenIff | gateway/tunnel/tunnel-server.c:519-758 | in every run a descriptor is open if and only if it is the TUN device or was accepted and its end has not been reached since; every other number below the limit but the listening socket's is free for the next connection |
| Descriptors.EndClosesOnly | gateway/tunnel/tunnel-server.c:748-760 | reaching the end frees the descriptor's number and leaves every other descriptor's bytes, readiness and the waiting connections as they were |
| Descriptors.LeftPeersAreClosed | gateway/tunnel/tunnel-server.c:502-760 | whenever the loop is at rest, a descriptor whose peer has left and which has not been closed is one that the loop has turned away from |
| Descriptors.ConnectionsAreAcceptedInOrder | gateway/tunnel/tunnel-server.c:518-575 | in every run connections are accepted in the order in which they came and none is dropped |
| Descriptors.BytesAreConserved | gateway/tunnel/tunnel-server.c:581-600 | in every run the bytes that came in on a descriptor, those its connections brought along included, were read, or dropped at a close, or are still there |
| Descriptors.DrainedIffUnbroken | gateway/tunnel/tunnel-server.c:504-516 | the events of a batch are taken in the order reported, and each is drained if and only if its descriptor was not broken when the wait returned |
| Descriptors.ResetIsNeverClosed | gateway/tunnel/tunnel-server.c:509-516 | a connection reset while the loop sleeps is never closed, whatever follows: its error event is passed over and its number stays taken |
| AdvReport.Parse | software/nrf51822/main.c:345-366 | the loop computes the scan, length 65535 for a zero length byte included, and ends |
| AdvReport.ScanFindsFirst | software/nrf51822/main.c:345-366 | over the encoding of any list of structures, padded or not, the scan returns the exact data of the first one of the wanted type |
| AdvReport.ScanMissesIff | software/nrf51822/main.c:352-365 | with no such structure it reports not found if and only if there is no padding or the byte behind the report is not the wanted type |
| AdvReport.LocatedInsideIff | software/nrf51822/main.c:352-365 | over arbitrary bytes, a located field belongs to a structure of the wanted type, has the length byte less one as its length, or 65535 if that byte is zero, and ends inside the report if and only if that structure's length byte is not zero and does not reach beyond the report |
| AdvReport.FieldsInsideIff | software/nrf51822/main.c:345-366 | over arbitrary bytes, the field located for every type stays inside the report if and only if every structure that is the first of its type on the chain of length bytes is complete |
| ScanStart.ScanControl.FinishStart | software/nrf51822/main.c:771-812 | acts on the count that was read: sets the flag or starts the scan |
| ScanStart.ScanControl.StartScan | software/nrf51822/main.c:758-813 | with nothing in between, starts scanning when no flash operation is outstanding, else sets the flag |
| ScanStart.ScanControl.OnSysEvt | software/nrf51822/main.c:488-504 | a flash event with the flag set clears it and tries again; any other event does nothing |
| ScanStart.ScanStartsOnceIff | software/nrf51822/main.c:758-813 | for every gap between reading the count and acting on it and every later run: started exactly once if the count was zero or a flash event since left nothing outstanding, otherwise not yet, with the flag set |
| ScanStart.StartsAtRestIff | software/nrf51822/main.c:766-812 | a scan started by an event finds the flash at rest, in every run; one started by `main` does not if and only if the count read was zero and the gap left an operation outstanding |
| ScanStart.ScanStrandedIff | software/nrf51822/main.c:766-775 | the scan is unstarted with no flash operation left to start it if and only if operations were outstanding when the count was read, none when the flag was set, and no flash operation has come up since |
| ScanStart.FlashEndingInGapStrands | software/nrf51822/main.c:768-773 | the shortest such run: the one outstanding operation ends between the two lines |
| ScanStart.NextFlashOperationRescues | software/nrf51822/main.c:494-498 | a later flash operation starts the scan after all |
| ScanStart.ScanStartsExactlyOnce | software/nrf51822/main.c:488-504 | with nothing in the gap the scan is never lost: started exactly once as soon as the flash is at rest, and until then an operation is outstanding that will bring it up again |

## Left out

- SpiSlave.Coprocessor.AddEvent: payloads above 62 bytes, which do not fit behind the two header bytes of the 64-byte transmit buffer; the one caller never passes more than 39.
- HostDriver.Device.OnReadIrqDone: frames whose length byte points beyond the 128-byte receive buffer; the runs show that the firmware never sends one.
- HostDriver.Device.OnCommandDone: the same frames.
- HostDriver.Device.CopyToUser: copies of more than the 128 bytes of the receive buffer, which would read whatever lies behind it.
- HostDriver.Device.ReadToUser: the `count` argument of `read()`, which the code ignores, and waiting; a read without data returns no bytes, as after a signal.
- SplitLink.SplitBusIsInOrder: transfers whose bytes cross before the handler of the transfer before has run, which the driver does not rule out; every result about runs with gaps assumes this.
- AdvReport.Parse: reports of which the byte behind cannot be read, as the code reads it when a report ends in a lone length byte.
- RoutingTable.TunnelServer.ParsePrefixes: reading and splitting the file's text; the model starts from pairs of addresses.
- TunnelMachine.Machine.Handle: how many bytes were read, and the results of `write`; which bytes go to the TUN device is stated by `RoutingTable.TunnelServer.OnClientData`.
- RoutingTable.TunnelServer.OnClosed: descriptors of 512 and above, for which the code has no table entry.
- EventLoop.StrandedIff: errors of `accept` other than running out of connections or descriptors; the nested loops are steps rather than `while` loops so that arrivals can interleave.
- Errors returned by `spi_async` and by setting the SPI slave's buffers, which are taken to succeed.
- Chip-select and re-arming delays, LED and debug pins, spin-lock flags and debug output.
- Module loading, device-tree parsing, character-device registration and the debug-verbosity ioctl.
- The SoftDevice, the storage module and the TUN and socket interfaces, except for the state they show the code.
- Packet boundaries in the TCP stream: the server keeps none.
- The tunnel client, the raw-socket sniffers, the EEPROM flasher and the connection code that is commented out in the firmware.
