/** The `Diplomat` object: the parsed outline it was built from and a registry of
    messenger handlers keyed by output format name, updated in place. */
module Diplomat {
  import opened Wrappers
  import opened Reader

  /** `H` stands for `MessengerHandler`, a Go function value; the registry only stores
      and returns handlers, so their type is left abstract. */
  class Diplomat<H> {
    var outline: Outline
    var outlinePath: string
    var outputPath: string
    var messengerHandlers: map<string, H>
    var watch: bool

    /** `NewDiplomat`: keeps the outline and output path, with no outline file, no
        watching and an empty handler registry. */
    constructor (outline: Outline, outputPath: string)
      ensures this.outline == outline && this.outputPath == outputPath
      ensures outlinePath == "" && !watch
      ensures messengerHandlers == map[]
    {
      this.outline := outline;
      this.outputPath := outputPath;
      outlinePath := "";
      messengerHandlers := map[];
      watch := false;
    }

    /** `GetOutline`: the outline the object holds; reading it changes nothing. */
    method GetOutline() returns (o: Outline)
      ensures o == outline
    {
      o := outline;
    }

    /** `hasMessenger`: the handler registered under `messengerType`, or `None` when there
        is none; reading it changes nothing. */
    method HasMessenger(messengerType: string) returns (m: Option<H>)
      ensures m.Some? <==> messengerType in messengerHandlers
      ensures m.Some? ==> m.value == messengerHandlers[messengerType]
    {
      if messengerType in messengerHandlers {
        m := Some(messengerHandlers[messengerType]);
      } else {
        m := None;
      }
    }

    /** `RegisterMessenger`: `name` now maps to `messenger`, replacing any earlier handler
        under that name; every other name and every other field is left as it was. */
    method RegisterMessenger(name: string, messenger: H)
      modifies this`messengerHandlers
      ensures messengerHandlers == old(messengerHandlers)[name := messenger]
      ensures forall n :: n != name ==>
                (n in messengerHandlers <==> n in old(messengerHandlers)) &&
                (n in messengerHandlers ==> messengerHandlers[n] == old(messengerHandlers)[n])
    {
      messengerHandlers := messengerHandlers[name := messenger];
    }
  }

  /** What a caller can rely on, on a fresh object: no handler is known at first; a
      registration is found afterwards; registering again under the same name keeps only
      the last handler; other names are unaffected; the outline comes back unchanged. */
  method RegistryScenario<H>(outline: Outline, outputPath: string, a: H, b: H, c: H)
    returns (initially: Option<H>, registered: Option<H>, replaced: Option<H>, other: Option<H>, o: Outline)
    ensures initially == None
    ensures registered == Some(a)
    ensures replaced == Some(c)
    ensures other == Some(b)
    ensures o == outline
  {
    var d := new Diplomat<H>(outline, outputPath);
    initially := d.HasMessenger("js");
    d.RegisterMessenger("js", a);
    d.RegisterMessenger("json", b);
    registered := d.HasMessenger("js");
    d.RegisterMessenger("js", c);
    replaced := d.HasMessenger("js");
    other := d.HasMessenger("json");
    o := d.GetOutline();
  }
}
