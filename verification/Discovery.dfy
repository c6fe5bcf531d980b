/** A figure server and the load balancer together: a stored catalogue, printed, announced and
    parsed, ends as routes. */
module Discovery {
  import opened Strings
  import Blocks
  import Figures
  import FigureDisks
  import Routing

  /** A discovery answer: the server prints its catalogue into an announcement and the balancer
      handles the datagram. Exactly the stored figures, as they print, are now routed to the
      server's ip, and every other route is as it was. */
  method AnnounceCatalogue(fs: FigureDisks.FigureDisk, name: string, ip: string, listener: Routing.Listener)
    requires fs.Valid()
    requires '|' !in name && '|' !in ip && Tight(ip, Routing.BLANKS)
    requires Routing.Listable(FigureDisks.PrintedNames(fs.names, fs.runs))
    requires var msg := Routing.Announce(name, ip, Figures.Join(FigureDisks.PrintedNames(fs.names, fs.runs)));
             |msg| < Routing.BUFSIZE && Blocks.IsCString(msg)
    modifies listener
    ensures forall f :: f in listener.figureMap <==>
              f in FigureDisks.PrintedNames(fs.names, fs.runs) || f in old(listener.figureMap)
    ensures forall f :: f in listener.figureMap ==>
              listener.figureMap[f] ==
              if f in FigureDisks.PrintedNames(fs.names, fs.runs) then ip else old(listener.figureMap)[f]
  {
    ghost var t, texts := listener.figureMap, FigureDisks.PrintedNames(fs.names, fs.runs);
    var figureList := fs.GetFigureNamesCSV();
    var response := Routing.Announce(name, ip, figureList);
    forall f
      ensures f in Routing.After(t, Routing.Parse(Routing.Received(response))) <==> f in texts || f in t
      ensures f in Routing.After(t, Routing.Parse(Routing.Received(response))) ==>
                Routing.After(t, Routing.Parse(Routing.Received(response)))[f] == if f in texts then ip else t[f]
    {
      Routing.CatalogueRoundTrip(t, name, ip, texts, f);
    }
    var _ := listener.Handle(Routing.Parse(Routing.Received(response)));
  }
}
