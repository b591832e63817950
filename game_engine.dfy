/** The scene bookkeeping of src/GameEngine.cpp: the map from scene types to
    owned scenes, the current scene type, the running flag and the window
    resize clamp. A scene's own behaviour and the window are outside the
    model; the window is reduced to whether it is open. */
module Engine {

  /** A scene the engine owns; its update, actions and rendering are not
      modelled. */
  class Scene {
  }

  /** The scene types: `None`, `Algorithm`, and any further enumerators,
      which the model names by number. */
  datatype SceneType = None | Algorithm | Other(id: nat)

  /** `m_minWindowSize`. */
  const MinWindowWidth: int := 120
  const MinWindowHeight: int := 120

  /** The window size a resize event asks for, raised to the minimum in
      each dimension. */
  function ResizeClamp(width: int, height: int): (size: (int, int))
    ensures size.0 >= MinWindowWidth && size.1 >= MinWindowHeight
    ensures width >= MinWindowWidth ==> size.0 == width
    ensures height >= MinWindowHeight ==> size.1 == height
    ensures width < MinWindowWidth ==> size.0 == MinWindowWidth
    ensures height < MinWindowHeight ==> size.1 == MinWindowHeight
  {
    (if width > MinWindowWidth then width else MinWindowWidth,
     if height > MinWindowHeight then height else MinWindowHeight)
  }

  /** Clamping twice is clamping once. */
  lemma ResizeClampIdempotent(width: int, height: int)
    ensures var size := ResizeClamp(width, height); ResizeClamp(size.0, size.1) == size
  {
  }

  class GameEngine {
    var sceneMap: map<SceneType, Scene?>
    var currentSceneType: SceneType
    var running: bool
    var windowOpen: bool
    const configPath: string

    /** `GameEngine(configPath)` with `init`: the path must not be empty;
        the first scene is the algorithm scene, installed while ending the
        (absent) `None` scene. Whether the configuration opened a window
        is a parameter. */
    constructor (path: string, first: Scene, windowCreated: bool)
      requires path != []
      ensures configPath == path && running && windowOpen == windowCreated
      ensures currentSceneType == Algorithm && sceneMap == map[Algorithm := first]
    {
      configPath := path;
      sceneMap := map[];
      currentSceneType := None;
      running := true;
      windowOpen := windowCreated;
      new;
      ChangeScene(Algorithm, first, true);
    }

    /** `changeScene`: stores the scene under its type and makes that type
        current; with endCurScene the previous current type's entry is
        removed, otherwise every other entry stays. */
    method ChangeScene(sceneType: SceneType, scene: Scene?, endCurScene: bool)
      requires sceneType != None && scene != null
      requires sceneType != currentSceneType || !endCurScene
      modifies this`sceneMap, this`currentSceneType
      ensures currentSceneType == sceneType
      ensures sceneType in sceneMap && sceneMap[sceneType] == scene
      ensures endCurScene ==> old(currentSceneType) !in sceneMap
      ensures endCurScene ==> sceneMap == old(sceneMap)[sceneType := scene] - {old(currentSceneType)}
      ensures !endCurScene ==> sceneMap == old(sceneMap)[sceneType := scene]
      ensures forall t :: t != sceneType && t != old(currentSceneType) ==>
        (t in sceneMap <==> t in old(sceneMap)) && (t in sceneMap ==> sceneMap[t] == old(sceneMap)[t])
    {
      sceneMap := sceneMap[sceneType := scene];
      if endCurScene {
        sceneMap := sceneMap - {currentSceneType};
      }
      currentSceneType := sceneType;
    }

    /** `currentScene`: `operator[]` on the map, which inserts a null entry
        for an absent current type. */
    method CurrentScene() returns (scene: Scene?)
      modifies this`sceneMap
      ensures currentSceneType in sceneMap && scene == sceneMap[currentSceneType]
      ensures currentSceneType in old(sceneMap) ==> sceneMap == old(sceneMap)
      ensures currentSceneType !in old(sceneMap) ==> scene == null && sceneMap == old(sceneMap)[currentSceneType := null]
    {
      if currentSceneType !in sceneMap {
        sceneMap := sceneMap[currentSceneType := null];
      }
      scene := sceneMap[currentSceneType];
    }

    /** `isRunning`: not quit and the window still open. */
    function IsRunning(): (r: bool)
      reads this
      ensures r <==> running && windowOpen
    {
      running && windowOpen
    }

    /** `quit`. */
    method Quit()
      modifies this`running
      ensures !running && !IsRunning()
    {
      running := false;
    }
  }

  /** After quitting, the engine is not running, whatever the window. */
  method QuitStopsEngine(windowCreated: bool) returns (before: bool, after: bool)
    ensures before == windowCreated && !after
  {
    var first := new Scene;
    var engine := new GameEngine("config.txt", first, windowCreated);
    before := engine.IsRunning();
    engine.Quit();
    after := engine.IsRunning();
  }

  /** Switching scenes while ending the current one drops the old scene;
      switching without ending keeps it. */
  method SwitchScenes() returns (ended: map<SceneType, Scene?>, kept: map<SceneType, Scene?>, first: Scene, second: Scene)
    ensures ended == map[Other(1) := second]
    ensures kept == map[Algorithm := first, Other(1) := second]
  {
    first := new Scene;
    second := new Scene;
    var a := new GameEngine("config.txt", first, true);
    a.ChangeScene(Other(1), second, true);
    ended := a.sceneMap;
    var b := new GameEngine("config.txt", first, true);
    b.ChangeScene(Other(1), second, false);
    kept := b.sceneMap;
  }

  /** The current scene of a fresh engine is the one it was built with. */
  method FirstSceneIsCurrent() returns (first: Scene, current: Scene?)
    ensures current == first
  {
    first := new Scene;
    var engine := new GameEngine("config.txt", first, true);
    current := engine.CurrentScene();
  }
}
