/** `modelling`: the network built and fitted by Keras is kept abstract; what
    the model keeps is the optimizer chosen by name and the configuration the
    fit receives. */
module Training {
  import opened Base
  import opened PipelineErrors

  datatype Optimizer = Adam | SGD | RMSprop | Adagrad | Adadelta

  function OptimizerName(o: Optimizer): string
  {
    match o
    case Adam => "Adam"
    case SGD => "SGD"
    case RMSprop => "RMSprop"
    case Adagrad => "Adagrad"
    case Adadelta => "Adadelta"
  }

  /** The if/elif chain on the optimizer name; any other name matches no branch. */
  function ParseOptimizer(name: string): (r: Option<Optimizer>)
    ensures r.Some? ==> OptimizerName(r.value) == name
    ensures r.None? <==> forall o: Optimizer :: OptimizerName(o) != name
  {
    if name == "Adam" then Some(Adam)
    else if name == "SGD" then Some(SGD)
    else if name == "RMSprop" then Some(RMSprop)
    else if name == "Adagrad" then Some(Adagrad)
    else if name == "Adadelta" then Some(Adadelta)
    else None
  }

  /** A trained network, seen through `predict` on one window: the window of
      scaled closes goes in, the next scaled close comes out. */
  type Network = seq<real> -> real

  /** Everything `model.compile` and `model.fit` are given besides the data:
      batch size, epochs, input window, learning rate, optimizer, loss name
      and the activation of the 25-unit dense layer. */
  datatype TrainingConfig = TrainingConfig(
    batch: int, epochs: int, window: int, learningRate: real,
    optimizer: Optimizer, loss: string, activation: string)

  /** Keras: build the LSTM(128) / LSTM(64) / Dense(25) / Dense(1) network,
      compile it and fit it on the training pairs. */
  type Fitter = (seq<seq<real>>, seq<real>, TrainingConfig) -> Network

  /** `modelling`. An unknown optimizer name leaves `optimizer` unbound, so
      compiling fails and nothing is trained. */
  function Modelling(xTrain: seq<seq<real>>, yTrain: seq<real>, batch: int, epoch: int, window: int,
                     learningRate: real, optimize: string, lossFunction: string, activation: string,
                     fit: Fitter): (r: Result<Network, PipelineError>)
    ensures r.Failure? <==> forall o: Optimizer :: OptimizerName(o) != optimize
    ensures r.Failure? ==> r.error == UnboundOptimizer(optimize)
    ensures r.Success? ==>
      exists o: Optimizer ::
        && OptimizerName(o) == optimize
        && r.value == fit(xTrain, yTrain, TrainingConfig(batch, epoch, window, learningRate, o, lossFunction, activation))
  {
    match ParseOptimizer(optimize)
    case None => Failure(UnboundOptimizer(optimize))
    case Some(o) =>
      Success(fit(xTrain, yTrain, TrainingConfig(batch, epoch, window, learningRate, o, lossFunction, activation)))
  }

  /** The defaults of `modelling` (batch 1, one epoch, window 60, learning
      rate 0.0001, Adam, mean squared error, linear activation) always train. */
  function DefaultModelling(xTrain: seq<seq<real>>, yTrain: seq<real>, fit: Fitter): (r: Result<Network, PipelineError>)
    ensures r.Success?
    ensures r.value == fit(xTrain, yTrain, TrainingConfig(1, 1, 60, 0.0001, Adam, "mean_squared_error", "linear"))
  {
    Modelling(xTrain, yTrain, 1, 1, 60, 0.0001, "Adam", "mean_squared_error", "linear", fit)
  }
}
