# SEREADMO in Dafny

A model of the algorithms of SEREADMO, a multipath ad hoc network with an erasure code, and proofs about them.

- **Mojette erasure code** (`Mojette*.dfy`, `ServerReceive.dfy`). The forward transform XORs every pixel of a support into
  one bin per projection; the decoders peel: they look for bins with one pixel left, decode it and subtract it from all
  projections. The main result is exact: for coprime, non-parallel angles with q >= 0 peeling succeeds if and only if the
  criterion of Katz holds, and if it fails no decoder could succeed. With rows received plainly, one projection per lost
  row suffices for non-parallel angles with q >= 1. The server decodes at the right moment, but it hands the decoder the first slots of a table indexed
  by row number, so that it works if and only if no lost row precedes a received one.
- **MP-OLSR multipath engine** (`ShortestPaths.dfy`, `Multipath*.dfy`). The topology store with its address table and its
  doubly threaded link lists, list-based Dijkstra, k rounds with repriced links, and the path cache: rings of paths served
  round-robin, dropped when the topology changes, and filled in a write section that does not look again at what the read
  section saw. The main result is that store and cache stay coherent over every interleaving of updates and lookup halves.
- **olsrd** (`OlsrSpf.dfy`, `HelloFormat.dfy`, `HelloSerializer.dfy`, `LqMpr.dfy`, `DuplicateSet.dfy`, `LinkQuality.dfy`,
  `TimeCoding.dfy`). Shortest path first with next hops, HELLO fragmentation against its parser, selection of multipoint
  relays by link quality, the duplicate window, the fixed-point link quality, and time coding (RFC 3626).

Code that changes state in the original is imperative here: classes with pointers, arrays and loops, proved against
specifications on values.

`dafny verify dfyconfig.toml` checks the whole project.

## Where the code falls short

Each of these is a lemma or an exact condition in the model.

- The server's row table: see above (`ServerReceive.PrefixIff`, `ServerReceive.FirstRowsIff`, `ServerReceive.Server.Decode`,
  `ServerReceive.FirstRowLost`). A row that is received twice counts twice, and the image cannot be decoded any more
  (`ServerReceive.Server.ReceiveLine`).
- `dijkstra_hops` is never reset, so that lookups from different sources leave paths with unwritten entries in front
  (`MultipathKPaths.HopsExact`, `MultipathKPaths.StaleRun`, `MultipathKPaths.StalePath`); with one source only there are none (`MultipathCache.Run`).
- A second owner for an address, or removing a main address as an alias, breaks the address table
  (`MultipathTopology.Topology.AddAlias`, `MultipathTopology.Topology.RemoveAlias`, `MultipathTopology.AliasTaken`,
  `MultipathTopology.MainAddrTaken`).
- The duplicate window does not record the number that creates an entry, which is processed again if and only if it comes
  in while it is among the last 32 (`DuplicateSet.OnceOverLifeIff`, `DuplicateSet.CreatorTwice`), and it takes numbers past the
  wrap-around for too low (`DuplicateSet.AheadIff`).
- A change of the relays is not signalled if and only if the set only shrinks (`LqMpr.CalculateLqMpr`, `LqMpr.DroppedRelay`).
- With link quality, a new edge to a neighbour costs as much as a broken link in the calculation that adds it
  (`OlsrSpf.AddEdge`, `OlsrSpf.SetNeighbors`).
- The message buffer of a HELLO has a fixed size, while a fragment may fill the output buffer, whose size follows the MTU: every
  HELLO stays inside the message buffer if and only if the MTU is below 1528, which nothing checks
  (`HelloSerializer.InsideBufferIff`, `HelloSerializer.OverfullWrites`, `HelloSerializer.Overrun`).
- The loss multiplier is not checked when it is read: the average leaves the byte for some link if and only if the 32-bit ratio
  exceeds the weight (`LinkQuality.StaysByteIff`), which multipliers above one bring about as long as their product with the
  weight does not wrap (`LinkQuality.RatioWithoutWrap`, `LinkQuality.LargeMultipliers`).
- Not every time code survives decoding and encoding (`TimeCoding.CodeRoundTripIff`).

## Model

| member | source | states |
|---|---|---|
| MojetteGeometry.CoreStops | mojette/mojette.c:185-224 | the part of a pixel set that peeling can never reach is a stopping set, and it is empty exactly when the set can be peeled |
| MojetteGeometry.CorePeel | mojette/mojette.c:191-224 | decoding a pixel that is alone on a line never changes what can be reached later, so the order of decoding does not matter |
| MojetteGeometry.LowestMoveDown | mojette/mojette.c:191-200 | the exchange step: between two directions, the lowest pixel of a set moves monotonically through the rows |
| MojetteGeometry.Staircase | mojette/mojette.c:191-200 | a non-empty set in which no pixel is alone on any line spans more rows than there are directions, and at least as many as the sum of their q |
| MojetteGeometry.EnoughRowsPeelable | mojette/mojette.c:185-224 | peeling never gets stuck when the sum of the q reaches the number of rows |
| MojetteGeometry.EnoughColumnsPeelable | mojette/mojette.c:185-224 | peeling never gets stuck when the sum of the absolute p reaches the number of columns |
| MojetteGeometry.FewRowsPeelable | serveur/mojette.c:247-286 | peeling never gets stuck with no more missing rows than projections, whatever the angles with q >= 1 |
| MojetteGeometry.EvenStopping | mojette/mojette.c:191-200 | a set with an even number of pixels on every line has no pixel that can be decoded |
| MojetteGeometry.KatzExact | mojette/mojette.c:185-224 | for coprime, non-parallel angles with q >= 0 the full support can be peeled if and only if the criterion of Katz holds |
| MojetteTransform.BinInRange | mojette/mojette.c:33-33 | every computed bin index lies inside the projection, for either sign of p |
| MojetteTransform.BinLayout | mojette/mojette.c:33-101 | one pixel to the right is q bins further and one row down p bins; a corner of the support has bin 0 and the opposite one the last bin |
| MojetteTransform.SingletonSums | mojette/mojette.c:194-198 | when one pixel is left in a bin, the index sum and the XOR of the bin are that pixel's index and value |
| MojetteTransform.KatzUnique | mojette/mojette.c:83-105 | two different images always have different projections if and only if the criterion of Katz holds |
| MojetteCodec.Support.constructor | mojette/mojette.c:54-70 | a new support has l*k zero pixels |
| MojetteCodec.Projection.constructor | mojette/mojette.c:24-41 | a new projection has |p|(l-1) + |q|(k-1) + 1 zero bins |
| MojetteCodec.XorIntoBin | mojette/mojette.c:98-101 | one pixel is XORed into exactly the bin of its line |
| MojetteCodec.Forward | mojette/mojette.c:83-105 | every bin gains the XOR of exactly the pixels on its line |
| MojetteDecoder.CountAll | mojette/mojette.c:127-155 | each counter is the number of pixels on its line and each index sum the sum of their linear indices |
| MojetteDecoder.InitialQueue | mojette/mojette.c:157-180 | the first queue holds every bin with one pixel, once |
| MojetteDecoder.TakeFromBin | mojette/mojette.c:204-210 | removing a decoded pixel keeps bin, counter and index sum equal to the XOR, number and index sum of the undecoded pixels |
| MojetteDecoder.TakePixel | mojette/mojette.c:202-223 | removing a pixel from all projections keeps that, and keeps the queue complete and free of repetitions |
| MojetteDecoder.OnlyPixel | mojette/mojette.c:194-198 | a counter of 1 means that quotient and remainder of the index sum are the coordinates of the only pixel left, and the bin its value |
| MojetteDecoder.StuckStops | mojette/mojette.c:191-192 | when no counter is 1, the undecoded pixels form a stopping set |
| MojetteDecoder.Search | mojette/mojette.c:191-192 | the search stops at a queued bin with one pixel, and runs off the queue only when no bin has one |
| MojetteDecoder.NamedPixel | mojette/mojette.c:194-198 | a bin that counts one pixel holds that pixel's index and value, and taking it out leaves what can be reached as it is |
| MojetteDecoder.DecodeAt | mojette/mojette.c:194-223 | one step decodes one pixel correctly and keeps every invariant |
| MojetteDecoder.DecodeNext | mojette/mojette.c:185-224 | a round decodes one more pixel, or fails exactly when what is left is the unreachable part |
| MojetteDecoder.Peel | mojette/mojette.c:182-224 | peeling decodes exactly the reachable pixels; it succeeds if and only if nothing is unreachable |
| MojetteInverse.Inverse | mojette/mojette.c:114-225 | decoding from projections restores the image and clears every bin if and only if the support can be peeled |
| MojetteInverse.TakeLine | serveur/mojette.c:186-211 | a received row is copied and taken out of all bins, counters and sums |
| MojetteInverse.TakeLines | serveur/mojette.c:186-211 | after all received rows the undecoded pixels are those of the missing rows |
| MojetteInverse.CopyLines | serveur/mojette.c:141-150 | without projections and with all rows the image is copied |
| MojetteInverse.DecodeMissing | serveur/mojette.c:152-287 | rows first, then peeling: succeeds if and only if the missing rows can be peeled |
| MojetteInverse.InverseSystem | serveur/mojette.c:128-288 | decoding from rows and projections restores the image and clears every bin if and only if the missing rows can be peeled; otherwise it restores exactly the reachable pixels |
| MojetteInverse.RoundTrip | mojette/mojette.c:83-225 | decoding into a blank support finishes if and only if the criterion of Katz holds; the pixels that peeling reaches come back, and exactly the others, of which there are some if the criterion fails, stay blank |
| MojetteInverse.EnoughReceived | serveur/serveur_udp.c:251-314 | a projection for each missing row is enough to decode, for non-parallel angles with q >= 1 |
| MojetteInverse.UnitAnglesEnough | serveur/serveur_udp.c:251-314 | the same for angles with q = 1 and different p |
| MojetteInverse.SystematicRoundTrip | serveur/mojette.c:97-288 | any rows may be lost: transform, loss and decoding give the image back when there are as many projections as lost rows |
| ServerReceive.Server.StoreLine | serveur/serveur_udp.c:141-173 | a row goes into the slot of its number; it is counted even if the slot was filled |
| ServerReceive.PrefixIff | serveur/serveur_udp.c:173-257 | with n row datagrams received, the first n slots are filled if and only if the rows are 0 to n-1 |
| ServerReceive.FirstRowsIff | serveur/serveur_udp.c:173-257 | the received rows are the first ones if and only if no lost row precedes a received one |
| ServerReceive.Server.Decode | serveur/serveur_udp.c:314-340 | decoding reads an unfilled slot if and only if the received rows are not the first ones; otherwise it returns the image if and only if the remaining rows can be peeled, which non-parallel angles with q >= 1 ensure |
| ServerReceive.Server.Check | serveur/serveur_udp.c:251-341 | of the three conditions at most one fires, exactly when rows and projections together number l |
| ServerReceive.Server.ReceiveLine | serveur/serveur_udp.c:141-191 | a row datagram keeps the collection right and counts one more; with it as the l-th the server decodes and starts over; once a row has come twice, decoding reads an unfilled slot |
| ServerReceive.Server.ReceiveProjection | serveur/serveur_udp.c:194-247 | the same for a projection datagram |
| ServerReceive.FirstRowLost | serveur/serveur_udp.c:141-340 | two rows, the first one lost: decoding with the projection in its place reads an unfilled slot |
| ShortestPaths.SettleInv | src_iptables/ser_routing/src/ser_path_djk.c:82-122 | settling the cheapest node keeps the search invariant |
| ShortestPaths.RelaxInv | src_iptables/ser_routing/src/ser_path_djk.c:127-142 | looking at one link out of the node settled last keeps the search invariant |
| ShortestPaths.RelaxEffect | src_olsr/olsrd-0.5.6-r2/src/olsr_spf.c:232-261 | only the head of the link can improve, and never a settled node |
| ShortestPaths.LowerBound | src_iptables/ser_routing/src/ser_path_djk.c:76-143 | when nothing is left to settle, no walk is cheaper than the computed cost |
| ShortestPaths.RouteWalk | src_iptables/ser_routing/src/ser_path_djk.c:135-137 | the parents of a settled node form a walk from the source of exactly its cost, and its length is the hop count |
| ShortestPaths.RouteSimple | src_iptables/ser_routing/src/ser_path_djk.c:135-137 | that walk visits no node twice |
| ShortestPaths.FinalDistances | src_iptables/ser_routing/src/ser_path_djk.c:76-148 | a finished search holds the exact distance of every node |
| MultipathPaths.PathBuffer.Insert | src_iptables/ser_routing/src/ser_path_djk.c:306-317 | a new path goes into the ring right after the current one, and the ring stays closed |
| MultipathPaths.PathBuffer.Hit | src_iptables/ser_routing/src/ser_path.c:138-142 | a hit returns the current path and moves to the next |
| MultipathPaths.HitsFrom | src_iptables/ser_routing/src/ser_path.c:138-142 | n hits return the first n paths in ring order |
| MultipathPaths.FullRound | src_iptables/ser_routing/src/ser_path.c:138-142 | as many hits as there are paths return each path exactly once and leave the ring as it was |
| MultipathPaths.CutRing | src_iptables/ser_routing/src/ser_path_tc.c:194-202 | the loop cuts the ring at its end and nowhere else |
| MultipathPaths.FreePathBuffer | src_iptables/ser_routing/src/ser_path_tc.c:181-217 | every path of every ring is freed exactly once |
| MultipathTopology.SpliceSrc | src_iptables/ser_routing/src/ser_path_tc.c:1006-1012 | unhooking a link from its source's list changes only its two neighbours |
| MultipathTopology.UnlinkSrc | src_iptables/ser_routing/src/ser_path_tc.c:457-463 | the out-list loses exactly that link and stays doubly linked |
| MultipathTopology.SpliceDst | src_iptables/ser_routing/src/ser_path_tc.c:998-1004 | the same for the in-list of its destination |
| MultipathTopology.UnlinkDst | src_iptables/ser_routing/src/ser_path_tc.c:442-448 | the in-list loses exactly that link and stays doubly linked |
| MultipathTopology.PushSrc | src_iptables/ser_routing/src/ser_path_tc.c:912-918 | a new link becomes the head of its source's out-list |
| MultipathTopology.PushDst | src_iptables/ser_routing/src/ser_path_tc.c:922-928 | a new link becomes the head of its destination's in-list |
| MultipathTopology.DetachOuts | src_iptables/ser_routing/src/ser_path_tc.c:437-451 | a removed node's outgoing links leave the in-lists of their destinations, its own included, and nothing else does |
| MultipathTopology.DetachIns | src_iptables/ser_routing/src/ser_path_tc.c:453-466 | its incoming links leave the out-lists of their sources |
| MultipathTopology.DetachNode | src_iptables/ser_routing/src/ser_path_tc.c:429-512 | what is left in the lists of the removed node are its links, each once, so that each is freed once, a link to itself included |
| MultipathTopology.LookupAgrees | src_iptables/ser_routing/src/ser_path_tc.c:158-175 | the hash lookup returns the node that owns an address, and null when none does |
| MultipathTopology.OneOwner | src_iptables/ser_routing/src/ser_path_tc.c:158-175 | no address belongs to two nodes |
| MultipathTopology.FreeSlot | src_iptables/ser_routing/src/ser_path_tc.c:82-91 | the first free alias slot, or none |
| MultipathTopology.AddNodeAddr | src_iptables/ser_routing/src/ser_path_tc.c:65-111 | an address goes to the head of its chain and into its slot; table and chains agree afterwards if and only if the address is new |
| MultipathTopology.RemoveNodeAddr | src_iptables/ser_routing/src/ser_path_tc.c:118-151 | an address leaves its chain and its owner's table, everything else stays |
| MultipathTopology.Topology.constructor | src_iptables/ser_routing/src/ser_path_tc.c:523-590 | the empty store is valid |
| MultipathTopology.Topology.AddNode | src_iptables/ser_routing/src/ser_path_tc.c:268-341 | a new node enters list and table and empties the path cache; a known address changes nothing |
| MultipathTopology.Topology.RemoveNode | src_iptables/ser_routing/src/ser_path_tc.c:349-515 | removes the node, its addresses and exactly its incident links, frees each of those links once, keeps the order of all other lists, and empties the path cache |
| MultipathTopology.Topology.AddLink | src_iptables/ser_routing/src/ser_path_tc.c:841-943 | adds one link at the head of both lists if both nodes are known, also from a node to itself, and empties the path cache in every case |
| MultipathTopology.Topology.RemoveLink | src_iptables/ser_routing/src/ser_path_tc.c:950-1048 | takes out the first link between the addresses if there is one, and empties the path cache in every case |
| MultipathTopology.Topology.AddAlias | src_iptables/ser_routing/src/ser_path_tc.c:692-749 | an alias goes into the first free slot and leaves graph and cache alone; the store stays right if and only if the address is new |
| MultipathTopology.Topology.RemoveAlias | src_iptables/ser_routing/src/ser_path_tc.c:756-796 | nobody owns the alias afterwards; the store stays right if and only if it was not a main address |
| MultipathTopology.AliasTaken | src_iptables/ser_routing/src/ser_path_tc.c:692-749 | giving a node the main address of another one breaks the store |
| MultipathTopology.MainAddrTaken | src_iptables/ser_routing/src/ser_path_tc.c:756-796 | removing a main address as an alias breaks the store |
| MultipathDijkstra.InitSearch | src_iptables/ser_routing/src/ser_path_djk.c:56-71 | all nodes are unprocessed, the source costs 0 and the others the maximum; hop counts are left over from earlier runs |
| MultipathDijkstra.SelectMin | src_iptables/ser_routing/src/ser_path_djk.c:82-107 | the first node of least cost below the maximum, or none |
| MultipathDijkstra.SettleNode | src_iptables/ser_routing/src/ser_path_djk.c:115-122 | the cheapest node leaves the list and is settled |
| MultipathDijkstra.RelaxLink | src_iptables/ser_routing/src/ser_path_djk.c:130-139 | the fields of the head node follow one relaxation step |
| MultipathDijkstra.RelaxNode | src_iptables/ser_routing/src/ser_path_djk.c:127-142 | all links out of the node are relaxed |
| MultipathDijkstra.Dijkstra | src_iptables/ser_routing/src/ser_path_djk.c:36-148 | the nodes hold a finished search from the source, whose own hop count is untouched |
| MultipathKPaths.NodeResult | src_iptables/ser_routing/src/ser_path_djk.c:36-148 | every node has its exact distance, the maximum value if and only if it is unreachable, and pointers along a cheapest simple route whose length its hop count tells |
| MultipathKPaths.ReweightIns | src_iptables/ser_routing/src/ser_path_djk.c:256-270 | links into the later node are priced: those from the earlier node with FP, the others with FE; no other price changes |
| MultipathKPaths.ReweightBack | src_iptables/ser_routing/src/ser_path_djk.c:272-283 | the first link back is priced with FP |
| MultipathKPaths.NewCostStep | src_iptables/ser_routing/src/ser_path_djk.c:247-288 | the price of a later back link is overwritten by the next step, so only the one along the first hop stays |
| MultipathKPaths.CopyRoute | src_iptables/ser_routing/src/ser_path_djk.c:242-288 | the buffer ends with the route's addresses, source left out, and every link has its price for the next round |
| MultipathKPaths.ResetCosts | src_iptables/ser_routing/src/ser_path_djk.c:195-208 | every link starts with its real cost |
| MultipathKPaths.CommitCosts | src_iptables/ser_routing/src/ser_path_djk.c:290-300 | the prices become the costs of the next round |
| MultipathKPaths.FindPath | src_iptables/ser_routing/src/ser_path_djk.c:213-300 | a round returns null if and only if the destination cannot be reached, and otherwise a cheapest simple route under the costs of the round; the costs it leaves are those of which AfterRound says what they are |
| MultipathKPaths.FillEntry | src_iptables/ser_routing/src/ser_path_djk.c:213-321 | the ring holds the paths of all rounds: as many as configured if the destination can be reached, none otherwise |
| MultipathKPaths.TcKDijkstra | src_iptables/ser_routing/src/ser_path_djk.c:153-322 | one new entry in front of the cache, filled like that; the older entries stay |
| MultipathKPaths.SameReach | src_iptables/ser_routing/src/ser_path_djk.c:219-221 | repricing never changes what can be reached, so no later round fails |
| MultipathKPaths.FirstIsShortest | src_iptables/ser_routing/src/ser_path_djk.c:195-217 | the first path is a shortest path under the real link costs |
| MultipathKPaths.AfterRound | src_iptables/ser_routing/src/ser_path_djk.c:245-300 | a link into a node of the route costs FP of its old cost if it comes from the node before, FE if it comes from elsewhere; of the other links only the first that the second node lists back to the source changes, to FP |
| MultipathKPaths.PricesRise | src_iptables/ser_routing/src/ser_path_djk.c:245-300 | with FP and FE no cheaper than the cost, the price of the best route never falls from round to round |
| MultipathKPaths.HopsExact | src_iptables/ser_routing/src/ser_path_djk.c:232-251 | path_hops is the number of links if and only if the source's hop count was 0 |
| MultipathKPaths.StaleRun | src_iptables/ser_routing/src/ser_path_djk.c:56-71 | a store with two linked nodes: a search from one and then from the other leaves hop count 2 one link away, since hop counts are never reset |
| MultipathKPaths.StalePath | src_iptables/ser_routing/src/ser_path_djk.c:205-251 | the lookup after such a search gives a path with an entry in front that was never written |
| MultipathCache.RouteIsPath | src_iptables/ser_routing/src/ser_path_djk.c:247-251 | the addresses of a cheapest route form a path over existing links that omits the source and repeats nothing |
| MultipathCache.FilledEntry | src_iptables/ser_routing/src/ser_path_djk.c:153-322 | a freshly filled entry holds only paths of the topology, all ending at the destination, and none if and only if it cannot be reached |
| MultipathCache.ScanCache | src_iptables/ser_routing/src/ser_path.c:128-148 | the first entry for the pair answers and moves on by one path; the others stay |
| MultipathCache.AnswerIsTrue | src_iptables/ser_routing/src/ser_path.c:150-166 | what a coherent cache answers is true of the topology |
| MultipathCache.ReadSection | src_iptables/ser_routing/src/ser_path.c:99-166 | the read half of a lookup keeps the cache coherent and answers truthfully: a path of the current topology, or unreachable, or not cached |
| MultipathCache.NextHit | src_iptables/ser_routing/src/ser_path.c:138-156 | a hit on a cached pair returns the first path of its ring and turns the ring by one |
| MultipathCache.ServeHits | src_iptables/ser_routing/src/ser_path.c:128-156 | k hits in a row on an entry of k paths return each of them exactly once |
| MultipathCache.WriteSection | src_iptables/ser_routing/src/ser_path.c:173-193 | the write half keeps the cache coherent whatever happened since the read half, and returns null if and only if the destination cannot be reached |
| MultipathCache.Update | src_iptables/ser_routing/src/ser_path_tc.c:268-1048 | every topology update that does not break the address table keeps the cache coherent |
| MultipathCache.AliasUpdate | src_iptables/ser_routing/src/ser_path_tc.c:692-796 | the alias operations that the runs leave out are exactly those that break the store |
| MultipathCache.Step | src_iptables/ser_routing/src/ser_path.c:125-193 | any critical section keeps store and cache right |
| MultipathCache.Run | src_iptables/ser_routing/src/ser_path.c:125-193 | after any interleaving of lookup halves and of the updates that do not break the address table, every cached path is a path of the current topology and an empty entry means unreachable; with one source only, no path has unwritten entries |
| OlsrSpf.SettleSorted | src_olsr/olsrd-0.5.6-r2/src/olsr_spf.c:304-305 | the path list stays in non-decreasing order of cost |
| OlsrSpf.CheaperIff | src_olsr/olsrd-0.5.6-r2/src/olsr_spf.c:232-246 | the 32-bit sum does not wrap, and comparing it with the stored cost decides whether the edge improves |
| OlsrSpf.StepFits | src_olsr/olsrd-0.5.6-r2/src/olsr_spf.c:232-232 | a path to a settled node and one more edge is short enough for its cost to stay below the maximum |
| OlsrSpf.FewEntries | src_olsr/olsrd-0.5.6-r2/src/olsr_spf.c:232-232 | with up to 1023 entries no path cost reaches the maximum, whatever the edges cost |
| OlsrSpf.ImproveNextHops | src_olsr/olsrd-0.5.6-r2/src/olsr_spf.c:257-260 | handing down the next hop keeps every node's next hop that of its first neighbour |
| OlsrSpf.RouteNextHop | src_olsr/olsrd-0.5.6-r2/src/olsr_spf.c:257-260 | at the end the next hop of a node is that of the first node on its route |
| OlsrSpf.UpdateEntry | src_olsr/olsrd-0.5.6-r2/src/olsr_spf.c:248-261 | the entry leaves the candidate tree only if it is there, and returns under its new cost |
| OlsrSpf.ExtractBest | src_olsr/olsrd-0.5.6-r2/src/olsr_spf.c:172-178 | a candidate of least cost, or none |
| OlsrSpf.RelaxEdge | src_olsr/olsrd-0.5.6-r2/src/olsr_spf.c:232-272 | one edge: the entries follow one relaxation step and every key in the tree stays current |
| OlsrSpf.SpfRelax | src_olsr/olsrd-0.5.6-r2/src/olsr_spf.c:188-274 | all edges with an inverse are relaxed |
| OlsrSpf.SpfStep | src_olsr/olsrd-0.5.6-r2/src/olsr_spf.c:296-306 | the best candidate is explored and moves from the tree to the path list |
| OlsrSpf.SpfRunFull | src_olsr/olsrd-0.5.6-r2/src/olsr_spf.c:288-307 | the path list is sorted by cost and holds exactly the reachable entries, each with its exact distance, hop count and the next hop of a cheapest route |
| OlsrSpf.ClearEntries | src_olsr/olsrd-0.5.6-r2/src/olsr_spf.c:357-361 | every entry starts broken and without next hop |
| OlsrSpf.DeleteEdge | src_olsr/olsrd-0.5.6-r2/src/tc_set.c:506-528 | our edge is gone, and the edge back forgets its inverse; inverses stay right everywhere |
| OlsrSpf.AddEdge | src_olsr/olsrd-0.5.6-r2/src/tc_set.c:406-497 | a new edge is connected with the edge back, if there is one; inverses stay right everywhere; the new edge costs as much as a broken link, or nothing without link quality |
| OlsrSpf.RewiredMutual | src_olsr/olsrd-0.5.6-r2/src/tc_set.c:430-528 | an edge knows its inverse if and only if the other entry has an edge back: adding or deleting one edge keeps that when both ends are told |
| OlsrSpf.UsableIff | src_olsr/olsrd-0.5.6-r2/src/olsr_spf.c:222-232 | the graph of the search has an arc if and only if there is an edge to a known entry that has an edge back, and the arc costs what the edge out costs |
| OlsrSpf.SetNeighbor | src_olsr/olsrd-0.5.6-r2/src/olsr_spf.c:388-430 | a symmetric neighbour with a link gets an edge and its entry the link as next hop; one without loses its edge; an edge that was there costs what the qualities in both directions give, or what it did without link quality; other edges stay, and inverses stay right |
| OlsrSpf.SetNeighbors | src_olsr/olsrd-0.5.6-r2/src/olsr_spf.c:388-431 | the same for all neighbours at once; a new edge costs as much as a broken link, or nothing without link quality |
| OlsrSpf.PresetsCover | src_olsr/olsrd-0.5.6-r2/src/olsr_spf.c:388-431 | if our edges with an inverse lead to symmetric neighbours, each of them has a preset next hop |
| OlsrSpf.CalculateRoutingTable | src_olsr/olsrd-0.5.6-r2/src/olsr_spf.c:318-455 | the whole calculation up to the path list: exact costs and next hops over the edges as they are afterwards, which of our edges are kept, added and dropped, what each costs, and that of the other entries only the inverses change |
| HelloFormat.CodeRoundTrip | src_olsr/olsrd-0.5.6-r2/src/olsr_protocol.h:184-188 | the code has the link in its two lowest bits and the status in the next two, and both come back |
| HelloFormat.DeserializeHello | src_olsr/olsrd-0.5.6-r2/src/process_package.c:370-415 | the loops compute the message function; every header field is the byte at its offset, and the entries are those of all addresses of all groups, each with link and status from the bits of the first byte of its group |
| HelloFormat.ParsedExactly | src_olsr/olsrd-0.5.6-r2/src/process_package.c:370-415 | what the message function finds in any bytes, stated byte by byte |
| HelloFormat.ParseFailsIff | src_olsr/olsrd-0.5.6-r2/src/process_package.c:370-415 | a message is refused if and only if it is no HELLO or ends within its header or a group |
| HelloFormat.HeaderBytes | src_olsr/olsrd-0.5.6-r2/src/build_msg.c:296-370 | every field of the header lies at its offset, sizes and numbers with the high byte first, the unused bytes are zero |
| HelloFormat.GroupLayout | src_olsr/olsrd-0.5.6-r2/src/build_msg.c:391-411 | a group begins with link and status in four bits, a zero and its size, then come the addresses in order |
| HelloFormat.GroupStarts | src_olsr/olsrd-0.5.6-r2/src/build_msg.c:321-411 | each group of a message starts where the sizes of those before it say |
| HelloFormat.AddrsParse | src_olsr/olsrd-0.5.6-r2/src/process_package.c:400-412 | the inner loop reads back all addresses of a group under its code |
| HelloFormat.GroupsParse | src_olsr/olsrd-0.5.6-r2/src/process_package.c:395-413 | the outer loop reads back all groups |
| HelloFormat.MessageRoundTrip | src_olsr/olsrd-0.5.6-r2/src/process_package.c:370-415 | parsing an encoded message gives its fields and its entries in reverse order |
| HelloSerializer.Output.Push | src_olsr/olsrd-0.5.6-r2/src/net_olsr.c:234-244 | a message enters the buffer whole if it fits what net_outbuffer_bytes_left says, or not at all; none is lost or cut |
| HelloSerializer.Output.Flush | src_olsr/olsrd-0.5.6-r2/src/net_olsr.c:348-456 | what is pending is sent as one packet of whole messages and the buffer is empty |
| HelloSerializer.SendableCount | src_olsr/olsrd-0.5.6-r2/src/build_msg.c:318-330 | sendable are exactly the neighbours of status 0 to 2 and link 0 to 3, each as often as it is listed |
| HelloSerializer.EmittedAll | src_olsr/olsrd-0.5.6-r2/src/build_msg.c:318-413 | the loops over status and link come to every sendable neighbour exactly once |
| HelloSerializer.PushMessage | src_olsr/olsrd-0.5.6-r2/src/build_msg.c:364-370 | sequence number and size complete a message that encodes its groups, and it fits the buffer |
| HelloSerializer.SendPartial | src_olsr/olsrd-0.5.6-r2/src/build_msg.c:358-379 | the partial message holds what was built, with the open group closed, and a new one starts |
| HelloSerializer.MakeRoom | src_olsr/olsrd-0.5.6-r2/src/build_msg.c:355-387 | afterwards one entry fits, unless even the empty buffer is too small |
| HelloSerializer.AddNeighbor | src_olsr/olsrd-0.5.6-r2/src/build_msg.c:355-403 | one neighbour is added, after a partial send if needed |
| HelloSerializer.EndGroup | src_olsr/olsrd-0.5.6-r2/src/build_msg.c:406-411 | the group gets its size |
| HelloSerializer.AddGroup | src_olsr/olsrd-0.5.6-r2/src/build_msg.c:321-411 | one status and link: exactly the matching neighbours are added in order |
| HelloSerializer.SerializeHello | src_olsr/olsrd-0.5.6-r2/src/build_msg.c:262-422 | fails if and only if the buffer cannot hold what is needed; otherwise the pushed messages encode the neighbours, share one header, have consecutive numbers and fit, some message says something of an entry, in its bits, if and only if the entry is a sendable neighbour, and the farthest write ends where Farthest says |
| HelloSerializer.FarthestBound | src_olsr/olsrd-0.5.6-r2/src/build_msg.c:355-411 | no list of neighbours makes the serializer write further than four bytes past the last multiple of four in the output buffer, or in 24 bytes if that is larger |
| HelloSerializer.OverfullWrites | src_olsr/olsrd-0.5.6-r2/src/build_msg.c:355-387 | 369 neighbours of one group and one of the next are written beyond a message buffer of 1496 bytes, whenever the output buffer has at least as many |
| HelloSerializer.InsideBufferIff | src_olsr/olsrd-0.5.6-r2/src/net_olsr.c:133-154 | every list of neighbours stays inside the message buffer if and only if the MTU is below 1528 |
| HelloSerializer.FragmentationRoundTrip | src_olsr/olsrd-0.5.6-r2/src/build_msg.c:262-422 | parsing all fragments gives exactly the multiset of sendable neighbours, and one header |
| HelloSerializer.OnTheWire | src_olsr/olsrd-0.5.6-r2/src/build_msg.c:321-411 | byte by byte: an entry is a sendable neighbour if and only if some fragment has its address in a group whose first byte has its link in the two lowest bits and its status in the next two |
| HelloSerializer.SplitConcat | src_olsr/olsrd-0.5.6-r2/src/parser.c:290-312 | the receiver's loop cuts a packet at the sizes in the messages and gets back exactly the messages that were put in |
| HelloSerializer.PacketsCarryAll | src_olsr/olsrd-0.5.6-r2/src/net_olsr.c:234-456 | once the buffer is flushed, cutting all packets gives exactly the messages pushed, in order |
| HelloSerializer.SendAndReceive | src_olsr/olsrd-0.5.6-r2/src/process_package.c:370-415 | serializer, packets and parser together: from the bytes of the packets any neighbour list comes back whole |
| HelloSerializer.SendOverInterface | src_olsr/olsrd-0.5.6-r2/src/net_olsr.c:133-154 | the same for an interface and the static message buffer, for every MTU below 1528 that has room for one neighbour |
| HelloSerializer.Overrun | src_olsr/olsrd-0.5.6-r2/src/build_msg.c:262-422 | for every larger MTU there is a HELLO that is written beyond the message buffer |
| LqMpr.ResetRelays | src_olsr/olsrd-0.5.6-r2/src/lq_mpr.c:58-80 | only symmetric, always willing neighbours start as relays |
| LqMpr.CheckDirect | src_olsr/olsrd-0.5.6-r2/src/lq_mpr.c:90-128 | relays are needed unless the two-hop neighbour is a symmetric neighbour without a link, or with a link that no path beats |
| LqMpr.FindBest | src_olsr/olsrd-0.5.6-r2/src/lq_mpr.c:145-157 | the first cheapest symmetric connecting neighbour not selected yet |
| LqMpr.LeadingIsSelected | src_olsr/olsrd-0.5.6-r2/src/lq_mpr.c:140-176 | choosing the best neighbour again and again, until there are enough or none is left, gives exactly those that fewer than coverage others come before |
| LqMpr.SelectRelays | src_olsr/olsrd-0.5.6-r2/src/lq_mpr.c:130-176 | the relays gained are exactly the eligible neighbours that fewer than coverage others come before, by cost and then by list position |
| LqMpr.ServeTwoHop | src_olsr/olsrd-0.5.6-r2/src/lq_mpr.c:88-177 | the same for any two-hop neighbour but one that is our neighbour without a link, which gains none |
| LqMpr.EligibleIs | src_olsr/olsrd-0.5.6-r2/src/lq_mpr.c:119-157 | eligible are the symmetric neighbours with a path that is not broken and beats the direct link, if there is one |
| LqMpr.AddsNone | src_olsr/olsrd-0.5.6-r2/src/lq_mpr.c:104-128 | a two-hop neighbour that is our neighbour without a link, or with one that no path beats, adds no relay |
| LqMpr.CoverageReached | src_olsr/olsrd-0.5.6-r2/src/lq_mpr.c:140-176 | as many neighbours as wanted are selected, or all eligible ones; a selected one has a path that is cheaper than every path of an eligible one left out, or as cheap and earlier in the list |
| LqMpr.AllCovered | src_olsr/olsrd-0.5.6-r2/src/lq_mpr.c:88-177 | every two-hop neighbour, unless it is our neighbour without a link, is reached by as many relays of the whole table as wanted, or by all symmetric neighbours with a path that is not broken and beats the direct link |
| LqMpr.CalculateLqMpr | src_olsr/olsrd-0.5.6-r2/src/lq_mpr.c:50-182 | the relays are exactly the always willing neighbours and those selected for some two-hop neighbour; a change is signalled if and only if a neighbour became a relay and tc_redundancy is set, and goes unsignalled then if and only if the relays have only shrunk |
| LqMpr.DroppedRelay | src_olsr/olsrd-0.5.6-r2/src/lq_mpr.c:50-182 | one neighbour that stops being a relay: no signal |
| DuplicateSet.DupEntry.Process | src_olsr/olsrd-0.5.6-r2/src/duplicate_set.c:111-158 | the update of an entry is one step of the window |
| DuplicateSet.DuplicateTable.ShallProcess | src_olsr/olsrd-0.5.6-r2/src/duplicate_set.c:86-159 | a new originator gets an entry; a known one takes a step and never expires earlier; others are untouched |
| DuplicateSet.StepRefines | src_olsr/olsrd-0.5.6-r2/src/duplicate_set.c:118-158 | bit i says whether number seqnr - i was processed; a message is processed if and only if it is new, or in the window and not processed before |
| DuplicateSet.ProcessedOnce | src_olsr/olsrd-0.5.6-r2/src/duplicate_set.c:86-159 | over any run without wrap-around and restart no number is processed twice |
| DuplicateSet.ProcessedOnceSinceCreation | src_olsr/olsrd-0.5.6-r2/src/duplicate_set.c:101-158 | the same from the creation of the entry on |
| DuplicateSet.UnrecordedIff | src_olsr/olsrd-0.5.6-r2/src/duplicate_set.c:101-158 | over any quiet run a number at most the newest that is not in the history is let through if and only if it comes in while it is among the last 32 |
| DuplicateSet.OnceOverLifeIff | src_olsr/olsrd-0.5.6-r2/src/duplicate_set.c:86-159 | over the life of an entry, its creation included, no number is processed twice if and only if the creating number does not come in again while it is among the last 32 |
| DuplicateSet.CreatorTwice | src_olsr/olsrd-0.5.6-r2/src/duplicate_set.c:63-73 | the number that creates an entry comes twice more in a row: it is processed once more |
| DuplicateSet.BehindWraps | src_olsr/olsrd-0.5.6-r2/src/duplicate_set.c:118-121 | numbers behind are recognised across the wrap-around |
| DuplicateSet.AheadIff | src_olsr/olsrd-0.5.6-r2/src/duplicate_set.c:118-136 | a number ahead is processed if and only if it does not lie past the wrap-around, or sixteen refusals went before |
| DuplicateSet.StepEffect | src_olsr/olsrd-0.5.6-r2/src/duplicate_set.c:118-158 | what a number that is not too low does to newest number, counter and every bit; the counter starts over |
| DuplicateSet.RestartAfter | src_olsr/olsrd-0.5.6-r2/src/duplicate_set.c:123-135 | sixteen numbers that are too low change only the counter, the seventeenth restarts the entry |
| DuplicateSet.CountsTooLow | src_olsr/olsrd-0.5.6-r2/src/duplicate_set.c:123-137 | the counter is at least k if and only if the last k numbers were too low for the newest one |
| DuplicateSet.RestartIff | src_olsr/olsrd-0.5.6-r2/src/duplicate_set.c:123-137 | over the life of an entry a number that is too low gets through if and only if the sixteen before it were too low as well |
| LinkQuality.Initialize | src_olsr/olsrd-0.5.6-r2/src/lq_plugin_default_fpm.c:81-87 | the new weight is the configured one in whole 65535ths, and old and new add up to the multiplier |
| LinkQuality.Average | src_olsr/olsrd-0.5.6-r2/src/lq_plugin_default_fpm.c:165-176 | only the product with the loss multiplier can exceed 32 bits; up to a multiplier of one nothing does, and the average is that of unbounded arithmetic |
| LinkQuality.NextIsMean | src_olsr/olsrd-0.5.6-r2/src/lq_plugin_default_fpm.c:165-176 | the average is never below the weighed mean of the old value and the loss multiplier, and exceeds it by less than two |
| LinkQuality.StaysByteIff | src_olsr/olsrd-0.5.6-r2/src/lq_plugin_default_fpm.c:165-176 | in 32-bit arithmetic every average fits a byte after a received HELLO if and only if the ratio of the loss multiplier is at most the weight |
| LinkQuality.RatioWithoutWrap | src_olsr/olsrd-0.5.6-r2/src/lq_plugin_default_fpm.c:171-175 | as long as the product does not wrap, that means a loss multiplier of at most one, or no weight |
| LinkQuality.LargeMultipliers | src_olsr/olsrd-0.5.6-r2/src/lq_plugin_default_fpm.c:165-176 | a multiplier of two takes a perfect link to 319; one a little above four wraps to no ratio at all |
| LinkQuality.LinkLq.PacketLossWorker | src_olsr/olsrd-0.5.6-r2/src/lq_plugin_default_fpm.c:151-179 | a HELLO updates the average with the weight of its phase, and the cost follows |
| LinkQuality.LostNeverRaises | src_olsr/olsrd-0.5.6-r2/src/lq_plugin_default_fpm.c:165-176 | a lost HELLO never raises the average |
| LinkQuality.ReceivedRaises | src_olsr/olsrd-0.5.6-r2/src/lq_plugin_default_fpm.c:165-176 | at the full multiplier and a non-zero weight a received HELLO raises it until 255 |
| LinkQuality.ReceivedRun | src_olsr/olsrd-0.5.6-r2/src/lq_plugin_default_fpm.c:151-179 | 255 received HELLOs in a row bring any average to its maximum |
| LinkQuality.CalcCost | src_olsr/olsrd-0.5.6-r2/src/lq_plugin_default_fpm.c:89-104 | the cost lies between 1 and a broken link |
| LinkQuality.CostExact | src_olsr/olsrd-0.5.6-r2/src/lq_plugin_default_fpm.c:89-104 | the cost of a link that is not broken is 65535 over the product of both qualities, short by less than one and what the first of two divisions lost |
| LinkQuality.CostBrokenIff | src_olsr/olsrd-0.5.6-r2/src/lq_plugin_default_fpm.c:89-104 | a link is broken if and only if one of its qualities is below a tenth or its cost would reach that of a broken link |
| LinkQuality.CostAntitone | src_olsr/olsrd-0.5.6-r2/src/lq_plugin_default_fpm.c:89-104 | a better link never costs more, whichever of its two qualities is better |
| LinkQuality.CostFollows | src_olsr/olsrd-0.5.6-r2/src/lq_plugin_default_fpm.c:151-179 | a lost HELLO never makes a link cheaper, one received at full multiplier never dearer |
| TimeCoding.FindExponent | src_olsr/olsrd-0.5.6-r2/src/mantissa.c:71-75 | the loop finds the position of the highest bit |
| TimeCoding.InOctaveMantissa | src_olsr/olsrd-0.5.6-r2/src/mantissa.c:114-122 | the mantissa never exceeds 15, so no carry into the exponent happens |
| TimeCoding.ReltimeToMe | src_olsr/olsrd-0.5.6-r2/src/mantissa.c:57-127 | computes the code of a time |
| TimeCoding.OctaveTime | src_olsr/olsrd-0.5.6-r2/src/mantissa.c:114-172 | within an octave decoding gives at most the time, short by less than a sixteenth and one millisecond |
| TimeCoding.RoundTrip | src_olsr/olsrd-0.5.6-r2/src/mantissa.c:57-172 | the same for all times from 125 ms to the end of the scale |
| TimeCoding.TimeOfCode | src_olsr/olsrd-0.5.6-r2/src/mantissa.c:139-172 | a code with mantissa a in its upper and exponent b in its lower four bits stands for (1 + a/16) * 2^b sixteenths of a second, cut down to milliseconds |
| TimeCoding.OutOfScale | src_olsr/olsrd-0.5.6-r2/src/mantissa.c:57-127 | below and above the scale there is one code each |
| TimeCoding.CodeRoundTripIff | src_olsr/olsrd-0.5.6-r2/src/mantissa.c:57-172 | encoding after decoding gives a code back if and only if the exponent is at least five, or the mantissa is a multiple of 2^(5 - exponent), or it is the code of the smallest time |
| TimeCoding.Monotone | src_olsr/olsrd-0.5.6-r2/src/mantissa.c:57-172 | decoding after encoding never reverses the order of two 32-bit times |

## Left out

- Allocation failure, logging, locks as such, sockets, IPC and kernel hooks: the critical sections are the steps of the model.
- Freeing memory other than cached paths: the model drops the objects.
- `calloc` and pointer arithmetic of the decoder's counters: an array of counters per projection; the queue is a sequence of
  bin positions. Where the original would follow a null pointer because no bin has one pixel left, the model returns `false`.
- Negative q: the bin index has no offset for it, so that it would leave the bins.
- The decoder in `serveur/mojette.c` that ends in `exit(0)`: the one in `mojette/mojette.c` is modelled.
- Parsing of the server's datagrams: rows and projections arrive as values of one image.
- The global node list, the hash chains and the list of cache entries are sequences: their `next` and `prev` pointers, other
  than those of links and cached paths, are not modelled; nor is the list threaded through the nodes by `dijkstra_list`.
- Link costs and path costs of the multipath engine are unbounded naturals, with a separate maximum value: no overflow.
- FP and FE are arbitrary functions; only `MultipathKPaths.PricesRise` assumes that they do not make links cheaper. Their
  header is not part of this model.
- Updates and both halves of a lookup are atomic. In the original `tc_add_node` looks for the address before it takes the write
  lock, so that two callers at once can enter one address twice, and hits move `lst_path` under the read lock only, so that
  two hits at once can return the same path.
- MultipathCache.Run: alias operations that break the address table are skipped, because the store means nothing after them;
  `MultipathCache.AliasUpdate` says which ones these are.
- Local links, `pth_copy_path` with its packet header and real next-hop address, and the functions that check a received path.
- The AVL trees of olsrd: the candidate tree is a map from entries to keys, and the order among equal keys is open; edges are
  sequences.
- OlsrSpf.SpfRunFull: does not model costs that wrap at 32 bits; no path with at most as many edges as there are entries may
  reach the maximal cost.
- OlsrSpf.CalculateRoutingTable: assumes the same in the form of at most 1023 entries, which is enough
  (`OlsrSpf.FewEntries`) because no edge costs more than a broken link. The timer that puts a calculation off is left out;
  whether we have a main address, and so an entry, is an input.
- OlsrSpf.SetNeighbor: the quality of the best link to a neighbour is an input.
- The routing table proper, prefixes and kernel routes that follow the path list.
- HELLO messages with link quality, IPv6, and packet headers; packet transform functions of plugins. A message of size 0
  ends the cutting of a packet, where the original does not get on.
- HelloFormat.DeserializeHello: a message that ends too early is rejected, where the original reads on.
- HelloSerializer.SerializeHello: what lies behind the message buffer is part of the modelled memory, as far as the writes
  reach.
- The float link-quality plugin, hysteresis, and the cost-change test.
- LinkQuality.Initialize: the product with the configured weight is that of real numbers, without the rounding of floats.
- The expiry of duplicate entries, and the main-address lookup that the original uses for its messages only.
- `mpr.c`: its pruning step drops relays without lowering the coverage counters, so that the coverage goal is not kept.
- The kernel twin of the multipath engine, the TCP variants, cookies, MID and HNA sets.
